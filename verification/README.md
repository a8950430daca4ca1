# Friend invitation list, modelled in Dafny

`lib.js` hands out the friends to invite to a party, one at a time. The walk
starts from the best friends and moves outward one circle at a time. The
next circle is everyone named in a friends list of the current circle who
has not been seen yet. Each circle is sorted by name. The members of each
circle that pass a filter are added to the list. The walk stops when a
circle is empty, or when `maxLevel` circles are done. `Iterator` and
`LimitedIterator` wrap that list behind `done()` and `next()`. `Filter`,
`MaleFilter` and `FemaleFilter` choose who passes.

The modules follow the source:

- `Names`: the order names are sorted in.
- `People`: friend records, the filters, and the array operations the walk
  uses: `filter` and `sort(sortByName)`.
- `Expansion`: `getNextLevelFriends` and its helpers `asOneEnumerable` and
  `onlyUnique`.
- `Traversal`: `getInvitedFriends`. This is a recursive definition that
  lists the circles, plus the `while` loop itself, proved equal to that
  definition.
- `TraversalFacts`: the properties of the whole walk.
- `Iteration`: the iterator constructors, `done` and `next`.
- `Wrappers`: `Option` and `Result`.

The model makes some deliberate choices:

- A person is a value. It holds a name, a gender string, the `best` flag and
  the names of their friends.
- The input must be well formed (`Expansion.WellFormed`): names are unique,
  and every name in a friends list belongs to someone in the input. The
  source has no code path for a name it cannot resolve. It passes
  `undefined` along and fails as soon as it reads that value's fields.
  Dropping unknown names silently would be a different program, so the
  model follows the code.
- `maxLevel` is `None` for the default `Infinity` and `Some(k)` for a
  bound. The loop's test is `level !== maxLevel`. So a negative bound never
  stops the walk, and the model gives it the unbounded list
  (`Iteration.LevelBound`). The code has no check that rejects a negative
  bound, so the model has none either.
- Filters are the closed set of the three constructors. Any other argument
  makes a constructor fail with `TypeError`.
- An iterator is the value of its remaining list. `Next` returns the friend
  it hands out, or `None` for `undefined`, together with the iterator after
  the call.

## Model

| member | source | states |
|---|---|---|
| Names.LessIrreflexive | lib.js:3-5 | no name sorts before itself |
| Names.LessTransitive | lib.js:3-5 | the name order is transitive |
| Names.LessTotal | lib.js:3-5 | of two different names, one sorts before the other |
| Names.LessAsymmetric | lib.js:3-5 | two names never sort before each other both ways |
| Names.LessIsLexicographic | lib.js:3-5 | the name order used for `sortByName` is exactly the lexicographic order: a proper prefix, or a smaller character at the first difference |
| People.FilterFunction | lib.js:80-104 | `Filter` accepts everyone, `MaleFilter` exactly the people whose gender is "male", and `FemaleFilter` exactly those whose gender is "female" |
| People.Keep | lib.js:29 | `filter` keeps exactly the elements that pass the predicate, and never lengthens the list |
| People.KeepSorted | lib.js:35-36 | filtering a list sorted by name leaves it sorted |
| People.KeepNoDupNames | lib.js:28-29 | filtering a list with distinct names keeps the names distinct |
| People.StrictlySortedIsDistinct | lib.js:3-5 | a list strictly sorted by name has no repeated person or name |
| People.Insert | lib.js:3-5 | inserting a new name into a sorted list keeps it sorted and adds exactly that person |
| People.SortByName | lib.js:3-5 | `sort(sortByName)` gives a list strictly sorted by name that is a permutation of the input |
| People.SortedUnique | lib.js:21 | two lists sorted by name with the same members are equal, so a sorted circle is determined by its members |
| Expansion.BuildIndex | lib.js:26-27 | the map has every name as a key, each key maps to the person of that name, and every value comes from the input |
| Expansion.ConcatAll | lib.js:11-13 | folding `concat` over the lists gives exactly the names that occur in some list |
| Expansion.ConcatAllFlattens | lib.js:18 | the left fold of `concat` equals joining the lists front to back, so order and repeats are kept |
| Expansion.IndexOf | lib.js:8 | `indexOf` gives -1 exactly when the value is absent; otherwise it gives the first position holding it |
| Expansion.OnlyUniqueFirst | lib.js:7-9 | `onlyUnique` keeps an element exactly when its value does not occur earlier in the list |
| Expansion.UniquePrefix | lib.js:7-9 | filtering a prefix with `onlyUnique` leaves no repeats and loses no value |
| Expansion.Unique | lib.js:19 | `filter(onlyUnique)` gives a repeat-free list with the same values |
| Expansion.Resolve | lib.js:20 | each name is replaced by the person filed under it, and distinct names give distinct people |
| Expansion.FriendNames | lib.js:17-18 | the joined friends lists of a circle hold exactly the names some member lists |
| Expansion.ResolvedMembers | lib.js:19-21 | after resolving and sorting, everyone named is present and nobody else is |
| Expansion.NextLevel | lib.js:15-22 | the next level is sorted by name, and holds exactly the people named in the circle's friends lists, each once |
| Traversal.FirstRing | lib.js:28-30 | the first circle is exactly the best friends, sorted by name |
| Traversal.ExpandRing | lib.js:35-36 | the new queue is sorted by name, avoids everyone visited, and comes from the map |
| Traversal.NextRing | lib.js:35-37 | the next circle holds exactly the people, not yet visited, whom someone in the circle names as a friend; it is sorted by name |
| Traversal.UnvisitedShrinks | lib.js:33-37 | every non-empty circle strictly shrinks the set of unvisited people, which makes the loop terminate |
| Traversal.Circles | lib.js:33-39 | the walk begins with the current queue, goes on while the queue is non-empty and below the bound, and never passes the bound |
| Traversal.CirclesSorted | lib.js:21 | every circle of the walk is non-empty, sorted by name and drawn from the input |
| Traversal.CirclesFresh | lib.js:31-37 | no circle after the first meets the people visited before it |
| Traversal.CirclesDisjoint | lib.js:31-37 | no person is in two circles |
| Traversal.Rings | lib.js:28-39 | the circles start with the sorted best friends, exist exactly when there is a best friend and the bound is not 0, are pairwise disjoint, and number at most the bound |
| Traversal.Invite | lib.js:34 | everyone pushed passes the filter and belongs to some circle |
| Traversal.InvitedFriends | lib.js:24-42 | the list holds only input people who pass the filter; it is empty for bound 0 and when no one is a best friend |
| Traversal.LoopStep | lib.js:33-39 | one pass of the loop moves one circle from "still to invite" to "invited" |
| Traversal.GetInvitedFriends | lib.js:24-42 | the `while` loop with its map, queue, visited set and level computes InvitedFriends |
| TraversalFacts.InviteDistinct | lib.js:34 | pushing the filtered members of pairwise disjoint circles with distinct members repeats no one |
| TraversalFacts.NoDuplicates | lib.js:31-37 | the invitation list has no repeated person and no repeated name |
| TraversalFacts.InviteOrdered | lib.js:34 | pushing the filtered members of sorted, pairwise disjoint rings lists them ring after ring, and by name within a ring |
| TraversalFacts.InvitedOrdered | lib.js:28-37 | the invitation list runs ring after ring outward from the best friends, and by name within each ring |
| TraversalFacts.SizeBound | lib.js:24-42 | the invitation list is never longer than the input |
| TraversalFacts.InviteThenFilter | lib.js:34 | filtering each circle is the same as filtering the accept-all list |
| TraversalFacts.FilterIndependence | lib.js:34-36 | the filter never changes the walk: any filter's list is the accept-all list with the rejected people removed, in the same order |
| TraversalFacts.InviteComplete | lib.js:34 | every member of a circle who passes the filter is pushed |
| TraversalFacts.InvitedMembers | lib.js:28-39 | a person is invited exactly when they pass the filter and lie in some circle of the walk |
| TraversalFacts.FilterVariants | lib.js:80-104 | the male and female lists keep exactly the people of that gender from the accept-all list, and share no one |
| TraversalFacts.CirclesTruncated | lib.js:33 | a walk bounded at k circles visits exactly the first circles of the unbounded walk |
| TraversalFacts.InvitePrefix | lib.js:34 | inviting from the first circles gives a prefix of inviting from all of them |
| TraversalFacts.BoundedIsPrefix | lib.js:24-33 | with bound k the circles are the first k of the unbounded walk, and the list is a prefix of the unbounded list |
| TraversalFacts.CirclesBreadthFirst | lib.js:35-37 | each later circle is exactly the people discovered from the circle before, beyond everything seen so far |
| TraversalFacts.CirclesStop | lib.js:33 | the walk ends below its bound only after a circle that discovers no one |
| TraversalFacts.BreadthFirst | lib.js:28-39 | the circles are the breadth-first layers from the best friends: the first layer, each layer from the previous one, and a stop only at the bound or when nothing new is found |
| Iteration.LevelBound | lib.js:33 | the walk stops at a level exactly when that level equals `maxLevel`, so a negative bound never stops it and acts as no bound |
| Iteration.NewIterator | lib.js:50-60 | an argument that is not a filter gives TypeError; otherwise the iterator holds the full list, which is repeat-free, no longer than the input, and made of input people who pass the filter |
| Iteration.NewLimitedIterator | lib.js:70-73 | an argument that is not a filter gives TypeError (see Left out for what its own `filterFunction` may do first); otherwise the iterator holds the list of the first maxLevel circles, which is a prefix of the unlimited iterator's list; bound 0 is done at once, and a negative bound equals no bound |
| Iteration.Done | lib.js:58 | `done()` is true exactly when `next()` would answer `undefined`, and then `next()` leaves the iterator unchanged |
| Iteration.Next | lib.js:59 | `next()` hands out and removes the head; when the iterator is done, it answers `undefined` and changes nothing |
| Iteration.PullsYieldListThenNone | lib.js:58-59 | successive `next()` calls hand out the list in order, then `undefined` on every further call |
| Iteration.Drain | lib.js:58-59 | `while (!done()) next()` collects exactly the list and leaves the iterator done |

## Left out

- Name order: `localeCompare` follows the locale's collation. The model uses the plain lexicographic order on characters. Every ordering property is proved for that order only.
- Duplicate names: `friendsMap` keeps the last person with a given name, while the first circle keeps the records themselves. Inputs with repeated names are outside the model (`Expansion.WellFormed`).
- Unknown friend names: the source resolves these to `undefined` and then fails when it reads that value's fields. Under some bounds the last circle is never read, and then it does not fail. The model requires every name to resolve instead of modelling that failure, which excludes more inputs than those that fail (next line).
- Expansion.WellFormed: it also rejects an unknown name in the friends list of someone the walk never reaches, where the source never looks the name up and runs normally. For example, with `A` a best friend with no friends and `Z`, unreachable, listing `ghost`, the source returns `[A]`, but this input is outside the model. Restricting the condition to the people the walk reaches would require a reachability fixpoint, which the model does not define.
- Expansion.ConcatAll: `reduce` with no initial value throws on an empty array. The model requires a non-empty circle, which the loop guard guarantees.
- Expansion.Unique: states membership and the absence of repeats. It does not state that first occurrences keep their order, because the result is sorted at once.
- People.SortByName: stated for lists with distinct names only, so the stability of `Array.prototype.sort` never matters.
- Iteration.NewLimitedIterator: `maxLevel` is an integer. A non-integer or missing bound never equals the level, so the walk is unbounded; the model omits those values. The source also runs the walk before it checks the filter, and the walk calls the argument's own `filterFunction`. So for a non-filter the constructor may throw whatever that function throws, or never return; the model maps every non-filter to TypeError. Error messages are not modelled.
- Iteration.Next: the JavaScript iterator is a mutable object whose `next()` shifts its array. The model returns the shortened iterator as a new value.
- Filters: any object whose prototype chain reaches `Filter.prototype` passes the `instanceof` test, and its own `filterFunction` would be used. The model covers the three constructors of the library only.
- Prototype wiring: `Object.setPrototypeOf` and `exports` only connect the constructors, so they are not modelled separately.
