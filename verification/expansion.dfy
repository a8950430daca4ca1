/** `getNextLevelFriends`: from one ring of the traversal to the names of all
    their friends, with repeated names removed, resolved through the
    name-to-person map and sorted by name. */
module Expansion {
  import opened Names
  import opened People

  /** The `friendsMap` of the traversal: a person's name to the person. */
  type Index = map<string, Person>

  /** Every entry is filed under its own name. */
  predicate Resolves(index: Index)
  {
    forall k :: k in index ==> index[k].name == k
  }

  /** What the source needs of its input: names are unique, and every name in
      a friends list is the name of a person in the input. */
  predicate WellFormed(friends: seq<Person>)
  {
    && NoDupNames(friends)
    && forall p, n :: p in friends && n in p.friends ==> n in NamesOf(friends)
  }

  /** The names of the input, in input order. */
  function NamesOf(friends: seq<Person>): seq<string>
  {
    seq(|friends|, i requires 0 <= i < |friends| => friends[i].name)
  }

  /** The name-to-person map of `getInvitedFriends`, filled in input order,
      so the last person with a given name wins. */
  function BuildIndex(friends: seq<Person>): (m: Index)
    ensures forall n :: n in NamesOf(friends) ==> n in m
    ensures Resolves(m)
    ensures forall k :: k in m ==> m[k] in friends
    ensures NoDupNames(friends) ==> forall p :: p in friends ==> p.name in m && m[p.name] == p
  {
    if |friends| == 0 then map[]
    else
      var init := friends[..|friends| - 1];
      var last := friends[|friends| - 1];
      assert friends == init + [last];
      assert NamesOf(friends) == NamesOf(init) + [last.name];
      assert NoDupNames(friends) ==> NoDupNames(init);
      BuildIndex(init)[last.name := last]
  }

  /** The friends list of every member of a ring, in ring order. */
  function FriendLists(ring: seq<Person>): seq<seq<string>>
  {
    seq(|ring|, i requires 0 <= i < |ring| => ring[i].friends)
  }

  /** The lists reduced with `asOneEnumerable`, concatenated left to right.
      `reduce` without an initial value throws on an empty array, so the
      input must have at least one list. */
  function ConcatAll(lists: seq<seq<string>>): (r: seq<string>)
    requires |lists| > 0
    ensures forall n :: n in r <==> exists i :: 0 <= i < |lists| && n in lists[i]
  {
    if |lists| == 1 then lists[0]
    else
      var init := lists[..|lists| - 1];
      assert forall i :: 0 <= i < |init| ==> init[i] == lists[i];
      ConcatAll(init) + lists[|lists| - 1]
  }

  /** The lists joined front to back: a reference for ConcatAll. */
  function Flatten(lists: seq<seq<string>>): seq<string>
  {
    if |lists| == 0 then [] else lists[0] + Flatten(lists[1..])
  }

  lemma {:induction false} FlattenSnoc(lists: seq<seq<string>>, last: seq<string>)
    ensures Flatten(lists + [last]) == Flatten(lists) + last
  {
    if |lists| > 0 {
      assert (lists + [last])[1..] == lists[1..] + [last];
      FlattenSnoc(lists[1..], last);
    }
  }

  /** Folding `concat` from the left keeps every name, in list order: the
      result is the lists joined front to back. */
  lemma {:induction false} ConcatAllFlattens(lists: seq<seq<string>>)
    requires |lists| > 0
    ensures ConcatAll(lists) == Flatten(lists)
  {
    if |lists| > 1 {
      var init := lists[..|lists| - 1];
      ConcatAllFlattens(init);
      assert lists == init + [lists[|lists| - 1]];
      FlattenSnoc(init, lists[|lists| - 1]);
    } else {
      assert lists[1..] == [];
    }
  }

  /** Array `indexOf`: the first position of `x` in `s`, or -1. */
  function IndexOf(s: seq<string>, x: string): (r: int)
    ensures -1 <= r
    ensures r == -1 <==> x !in s
    ensures 0 <= r ==> r < |s| && s[r] == x && x !in s[..r]
  {
    if |s| == 0 then -1
    else if s[0] == x then 0
    else
      var k := IndexOf(s[1..], x);
      if k == -1 then -1
      else
        assert s[..k + 1] == [s[0]] + s[1..][..k];
        k + 1
  }

  /** `onlyUnique`: an element is kept when it is the first occurrence of
      its value. */
  predicate OnlyUnique(s: seq<string>, i: nat)
    requires i < |s|
  {
    IndexOf(s, s[i]) == i
  }

  /** An element passes `onlyUnique` exactly when its value does not occur
      earlier in the list. */
  lemma OnlyUniqueFirst(s: seq<string>, i: nat)
    requires i < |s|
    ensures OnlyUnique(s, i) <==> s[i] !in s[..i]
  {
    var r := IndexOf(s, s[i]);
    assert r < i ==> s[..i][r] == s[i];
  }

  predicate NoDups(s: seq<string>)
  {
    forall i, j :: 0 <= i < j < |s| ==> s[i] != s[j]
  }

  /** Filtering with `onlyUnique`, restricted to the first `n` positions. */
  function UniquePrefix(s: seq<string>, n: nat): (r: seq<string>)
    requires n <= |s|
    ensures NoDups(r)
    ensures forall x :: x in r <==> x in s[..n]
  {
    if n == 0 then []
    else
      var r := UniquePrefix(s, n - 1);
      assert s[..n] == s[..n - 1] + [s[n - 1]];
      if OnlyUnique(s, n - 1) then
        assert s[n - 1] !in r;
        r + [s[n - 1]]
      else
        assert s[n - 1] in s[..n - 1] by {
          var k := IndexOf(s, s[n - 1]);
          assert 0 <= k < n - 1;
          assert s[..n - 1][k] == s[n - 1];
        }
        r
  }

  /** Filtering with `onlyUnique`: the first occurrence of every value. */
  function Unique(s: seq<string>): (r: seq<string>)
    ensures NoDups(r)
    ensures forall x :: x in r <==> x in s
  {
    assert s[..|s|] == s;
    UniquePrefix(s, |s|)
  }

  /** Each name looked up in the name-to-person map, when every name is a
      key. */
  function Resolve(names: seq<string>, index: Index): (r: seq<Person>)
    requires Resolves(index)
    requires forall n :: n in names ==> n in index
    ensures |r| == |names|
    ensures forall i :: 0 <= i < |r| ==> r[i] == index[names[i]] && r[i].name == names[i]
    ensures NoDups(names) ==> NoDupNames(r)
  {
    seq(|names|, i requires 0 <= i < |names| => index[names[i]])
  }

  /** The concatenated friends lists of a ring hold exactly the names some
      member of the ring lists as a friend. */
  lemma FriendNames(ring: seq<Person>)
    requires |ring| > 0
    ensures forall n :: n in ConcatAll(FriendLists(ring)) <==> exists q :: q in ring && n in q.friends
  {
    var lists := FriendLists(ring);
    forall n ensures n in ConcatAll(lists) <==> exists q :: q in ring && n in q.friends {
      if n in ConcatAll(lists) {
        var i :| 0 <= i < |lists| && n in lists[i];
        assert ring[i] in ring && n in ring[i].friends;
      }
      if q :| q in ring && n in q.friends {
        var i :| 0 <= i < |ring| && ring[i] == q;
        assert n in lists[i];
      }
    }
  }

  /** Sorting the resolved names neither loses nor adds anyone. */
  lemma ResolvedMembers(names: seq<string>, index: Index)
    requires Resolves(index)
    requires NoDups(names)
    requires forall n :: n in names ==> n in index
    ensures forall p :: p in SortByName(Resolve(names, index)) ==> p.name in names && index[p.name] == p
    ensures forall n :: n in names ==> index[n] in SortByName(Resolve(names, index))
  {
    var resolved := Resolve(names, index);
    var r := SortByName(resolved);
    forall p | p in r ensures p.name in names && index[p.name] == p {
      var i :| 0 <= i < |resolved| && resolved[i] == p;
    }
    forall n | n in names ensures index[n] in r {
      var i :| 0 <= i < |names| && names[i] == n;
      assert resolved[i] in resolved;
    }
  }

  /** `getNextLevelFriends(ring, index)`: every friend of someone in the
      ring, once, sorted by name. */
  function NextLevel(ring: seq<Person>, index: Index): (r: seq<Person>)
    requires |ring| > 0
    requires Resolves(index)
    requires forall p, n :: p in ring && n in p.friends ==> n in index
    ensures StrictlySorted(r)
    ensures forall p :: p in r ==> p.name in index && index[p.name] == p
    ensures forall p :: p in r ==> exists q :: q in ring && p.name in q.friends
    ensures forall q, n :: q in ring && n in q.friends ==> index[n] in r
  {
    var names := Unique(ConcatAll(FriendLists(ring)));
    FriendNames(ring);
    ResolvedMembers(names, index);
    SortByName(Resolve(names, index))
  }
}
