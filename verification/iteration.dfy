/** The public face of the library: `Iterator` and `LimitedIterator` hand
    out the invitation list one friend at a time.  The JavaScript objects
    are mutable; here an iterator is the value of its remaining list, and
    `Next` returns the friend together with the iterator after the call. */
module Iteration {
  import opened Wrappers
  import opened People
  import opened Expansion
  import opened Traversal
  import opened TraversalFacts

  /** What a caller may pass as the filter: an instance of one of the three
      filter constructors, or any other value. */
  datatype FilterArg = FilterInstance(filter: Filter) | NotAFilter

  /** The error the constructors raise for a filter of the wrong kind. */
  datatype Error = TypeError

  /** An iterator over the friends still to be handed out. */
  datatype Iterator = Iterator(invitedFriends: seq<Person>)

  /** The bound as the loop sees it: the walk stops at a level exactly when
      that level equals `maxLevel`, so a negative bound never stops it and
      acts as no bound at all. */
  function LevelBound(maxLevel: int): (m: Option<nat>)
    ensures forall level: nat :: m == Some(level) <==> level == maxLevel
  {
    if maxLevel >= 0 then Some(maxLevel) else None
  }

  /** `new Iterator(friends, filter)`: the whole invitation list, or a
      TypeError when `filter` is not a filter. */
  function NewIterator(friends: seq<Person>, arg: FilterArg): (r: Result<Iterator, Error>)
    requires arg.FilterInstance? ==> WellFormed(friends)
    ensures r.Failure? <==> arg.NotAFilter?
    ensures r.Success? ==> r.value.invitedFriends == InvitedFriends(friends, arg.filter, None)
    ensures r.Success? ==> Distinct(r.value.invitedFriends) && |r.value.invitedFriends| <= |friends|
    ensures r.Success? ==> forall p :: p in r.value.invitedFriends ==> p in friends && FilterFunction(arg.filter)(p)
  {
    match arg
    case NotAFilter => Failure(TypeError)
    case FilterInstance(filter) =>
      NoDuplicates(friends, filter, None);
      SizeBound(friends, filter, None);
      Success(Iterator(InvitedFriends(friends, filter, None)))
  }

  /** `new LimitedIterator(friends, filter, maxLevel)`: the friends of the
      first `maxLevel` circles, or a TypeError when `filter` is not a
      filter.  Its list is always a prefix of the unlimited iterator's. */
  function NewLimitedIterator(friends: seq<Person>, arg: FilterArg, maxLevel: int): (r: Result<Iterator, Error>)
    requires arg.FilterInstance? ==> WellFormed(friends)
    ensures r.Failure? <==> arg.NotAFilter?
    ensures r.Success? ==> r.value.invitedFriends == InvitedFriends(friends, arg.filter, LevelBound(maxLevel))
    ensures r.Success? ==> r.value.invitedFriends <= NewIterator(friends, arg).value.invitedFriends
    ensures r.Success? && maxLevel == 0 ==> Done(r.value)
    ensures r.Success? && maxLevel < 0 ==> r == NewIterator(friends, arg)
  {
    match arg
    case NotAFilter => Failure(TypeError)
    case FilterInstance(filter) =>
      if maxLevel >= 0 then
        BoundedIsPrefix(friends, filter, maxLevel);
        Success(Iterator(InvitedFriends(friends, filter, LevelBound(maxLevel))))
      else
        Success(Iterator(InvitedFriends(friends, filter, None)))
  }

  /** `done()`: it answers true exactly when `next()` would answer
      `undefined`, and then `next()` leaves the iterator as it is. */
  function Done(it: Iterator): (r: bool)
    ensures r <==> Next(it).0.None?
    ensures r ==> Next(it).1 == it
  {
    |it.invitedFriends| == 0
  }

  /** `next()`: the next friend, removed from the iterator; `None` stands for
      `undefined` once the iterator is done, and then the iterator does not
      change. */
  function Next(it: Iterator): (r: (Option<Person>, Iterator))
    ensures r.0.None? <==> it.invitedFriends == []
    ensures r.0.None? ==> r.1 == it
    ensures r.0.Some? ==> [r.0.value] + r.1.invitedFriends == it.invitedFriends
  {
    if |it.invitedFriends| == 0 then (None, it)
    else (Some(it.invitedFriends[0]), Iterator(it.invitedFriends[1..]))
  }

  /** The answers of `n` successive calls of `next()`. */
  function Pulls(it: Iterator, n: nat): (r: seq<Option<Person>>)
    ensures |r| == n
    decreases n
  {
    if n == 0 then []
    else
      var (p, it') := Next(it);
      [p] + Pulls(it', n - 1)
  }

  /** Calling `next()` again and again yields the invitation list in order,
      and `undefined` on every call after it is used up. */
  lemma {:induction false} PullsYieldListThenNone(it: Iterator, n: nat)
    ensures forall i :: 0 <= i < n ==>
              Pulls(it, n)[i] == if i < |it.invitedFriends| then Some(it.invitedFriends[i]) else None
    decreases n
  {
    if n > 0 {
      var (p, it') := Next(it);
      PullsYieldListThenNone(it', n - 1);
      assert Pulls(it, n) == [p] + Pulls(it', n - 1);
      forall i | 0 <= i < n
        ensures Pulls(it, n)[i] == if i < |it.invitedFriends| then Some(it.invitedFriends[i]) else None
      {
        if i > 0 {
          assert Pulls(it, n)[i] == Pulls(it', n - 1)[i - 1];
          if p.Some? {
            assert it.invitedFriends == [p.value] + it'.invitedFriends;
          }
        }
      }
    }
  }

  /** The usual client loop, calling `next()` until `done()` holds: it
      collects exactly the invitation list and leaves the iterator done. */
  method Drain(it: Iterator) returns (out: seq<Person>, last: Iterator)
    ensures out == it.invitedFriends
    ensures Done(last)
  {
    out := [];
    last := it;
    while !Done(last)
      invariant out + last.invitedFriends == it.invitedFriends
      decreases |last.invitedFriends|
    {
      var (p, rest) := Next(last);
      out := out + [p.value];
      last := rest;
    }
  }
}
