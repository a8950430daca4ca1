/** Friends, the filters applied to them, and the two array operations the
    traversal is built from: `Array.prototype.filter` (Keep) and sorting by
    name (SortByName, with `sortByName` as comparator). */
module People {
  import opened Names

  /** One friend record: a unique name, a gender string, whether the person is
      a best friend (a root of the traversal), and the names of their friends. */
  datatype Person = Person(name: string, gender: string, best: bool, friends: seq<string>)

  /** The three filter constructors of the source. */
  datatype Filter = PlainFilter | MaleFilter | FemaleFilter

  /** The `filterFunction` each filter constructor installs. */
  function FilterFunction(f: Filter): (accepts: Person -> bool)
    ensures f.PlainFilter? ==> forall p :: accepts(p)
    ensures f.MaleFilter? ==> forall p :: accepts(p) <==> p.gender == "male"
    ensures f.FemaleFilter? ==> forall p :: accepts(p) <==> p.gender == "female"
  {
    match f
    case PlainFilter => (p: Person) => true
    case MaleFilter => (p: Person) => p.gender == "male"
    case FemaleFilter => (p: Person) => p.gender == "female"
  }

  function IsBest(p: Person): bool
  {
    p.best
  }

  /** The test that keeps only people not yet visited. */
  function NotIn(visited: set<Person>): Person -> bool
  {
    (p: Person) => p !in visited
  }

  function Elems(s: seq<Person>): set<Person>
  {
    set p | p in s
  }

  function NameSet(s: seq<Person>): set<string>
  {
    set p | p in s :: p.name
  }

  predicate NoDupNames(s: seq<Person>)
  {
    forall i, j :: 0 <= i < j < |s| ==> s[i].name != s[j].name
  }

  /** No person occurs twice. */
  predicate Distinct(s: seq<Person>)
  {
    forall i, j :: 0 <= i < j < |s| ==> s[i] != s[j]
  }

  /** Sorted by name with no two equal names. */
  predicate StrictlySorted(s: seq<Person>)
  {
    forall i, j :: 0 <= i < j < |s| ==> Less(s[i].name, s[j].name)
  }

  /** Array `filter`: the elements of `s` that satisfy `f`, in their order. */
  function Keep(s: seq<Person>, f: Person -> bool): (r: seq<Person>)
    ensures |r| <= |s|
    ensures forall p :: p in r <==> p in s && f(p)
  {
    if |s| == 0 then []
    else (if f(s[0]) then [s[0]] else []) + Keep(s[1..], f)
  }

  /** A person placed in front of a sorted list whose names all sort after
      theirs gives a sorted list. */
  lemma ConsSorted(p: Person, s: seq<Person>)
    requires StrictlySorted(s)
    requires forall q :: q in s ==> Less(p.name, q.name)
    ensures StrictlySorted([p] + s)
  {
    var r := [p] + s;
    forall i, j | 0 <= i < j < |r| ensures Less(r[i].name, r[j].name) {
      if i > 0 {
        assert r[i] == s[i - 1] && r[j] == s[j - 1];
      } else {
        assert r[j] in s;
      }
    }
  }

  /** Filtering keeps a sorted list sorted. */
  lemma {:induction false} KeepSorted(s: seq<Person>, f: Person -> bool)
    requires StrictlySorted(s)
    ensures StrictlySorted(Keep(s, f))
  {
    if |s| > 0 {
      KeepSorted(s[1..], f);
      if f(s[0]) {
        forall q | q in Keep(s[1..], f) ensures Less(s[0].name, q.name) {
          var j :| 0 <= j < |s[1..]| && s[1..][j] == q;
          assert s[j + 1] == q;
        }
        ConsSorted(s[0], Keep(s[1..], f));
      }
    }
  }

  /** Filtering keeps names pairwise different. */
  lemma {:induction false} KeepNoDupNames(s: seq<Person>, f: Person -> bool)
    requires NoDupNames(s)
    ensures NoDupNames(Keep(s, f))
  {
    if |s| > 0 {
      KeepNoDupNames(s[1..], f);
      var rest := Keep(s[1..], f);
      if f(s[0]) {
        var r := [s[0]] + rest;
        forall i, j | 0 <= i < j < |r| ensures r[i].name != r[j].name {
          if i == 0 {
            assert r[j] in s[1..];
            var k :| 0 <= k < |s[1..]| && s[1..][k] == r[j];
            assert s[k + 1] == r[j];
          } else {
            assert r[i] == rest[i - 1] && r[j] == rest[j - 1];
          }
        }
      }
    }
  }

  lemma StrictlySortedIsDistinct(s: seq<Person>)
    requires StrictlySorted(s)
    ensures Distinct(s) && NoDupNames(s)
  {
    forall i, j | 0 <= i < j < |s|
      ensures s[i].name != s[j].name
    {
      LessIrreflexive(s[i].name);
    }
  }

  /** In a sorted list every name sorts after the first one. */
  lemma HeadIsLeast(p: Person, s: seq<Person>)
    requires StrictlySorted(s) && |s| > 0
    requires Less(p.name, s[0].name)
    ensures forall q :: q in s ==> Less(p.name, q.name)
  {
    forall q | q in s ensures Less(p.name, q.name) {
      var j :| 0 <= j < |s| && s[j] == q;
      if j > 0 {
        LessTransitive(p.name, s[0].name, s[j].name);
      }
    }
  }

  /** What is inserted after the head of a sorted list sorts after it. */
  lemma TailAfterHead(s: seq<Person>, p: Person, rest: seq<Person>)
    requires StrictlySorted(s) && |s| > 0
    requires Less(s[0].name, p.name)
    requires forall q :: q in rest <==> q == p || q in s[1..]
    ensures forall q :: q in rest ==> Less(s[0].name, q.name)
  {
    forall q | q in rest ensures Less(s[0].name, q.name) {
      if q != p {
        var j :| 0 <= j < |s[1..]| && s[1..][j] == q;
        assert s[j + 1] == q;
      }
    }
  }

  /** Inserts `p` in front of the first element whose name sorts after it. */
  function Insert(p: Person, s: seq<Person>): (r: seq<Person>)
    requires StrictlySorted(s)
    requires p.name !in NameSet(s)
    ensures StrictlySorted(r)
    ensures forall q :: q in r <==> q == p || q in s
    ensures multiset(r) == multiset(s) + multiset{p}
  {
    if |s| == 0 then [p]
    else if Less(p.name, s[0].name) then
      HeadIsLeast(p, s);
      ConsSorted(p, s);
      [p] + s
    else
      assert p.name != s[0].name;
      LessTotal(p.name, s[0].name);
      assert s == [s[0]] + s[1..];
      SortedTail(s);
      var rest := Insert(p, s[1..]);
      TailAfterHead(s, p, rest);
      ConsSorted(s[0], rest);
      [s[0]] + rest
  }

  /** Sorting with the `sortByName` comparator, on a list whose names are pairwise different (so the
      result does not depend on the stability of the sort). */
  function SortByName(s: seq<Person>): (r: seq<Person>)
    requires NoDupNames(s)
    ensures StrictlySorted(r)
    ensures forall q :: q in r <==> q in s
    ensures multiset(r) == multiset(s)
  {
    if |s| == 0 then []
    else
      assert NoDupNames(s[1..]) by {
        forall i, j | 0 <= i < j < |s[1..]| ensures s[1..][i].name != s[1..][j].name {
          assert s[1..][i] == s[i + 1] && s[1..][j] == s[j + 1];
        }
      }
      var rest := SortByName(s[1..]);
      assert s[0].name !in NameSet(rest) by {
        forall q | q in rest ensures q.name != s[0].name {
          var j :| 0 <= j < |s[1..]| && s[1..][j] == q;
          assert s[j + 1] == q;
        }
      }
      assert s == [s[0]] + s[1..];
      Insert(s[0], rest)
  }

  /** Two lists sorted by name with the same members are the same list: a
      ring is determined by who is in it. */
  lemma {:induction false} SortedUnique(a: seq<Person>, b: seq<Person>)
    requires StrictlySorted(a) && StrictlySorted(b)
    requires forall p :: p in a <==> p in b
    ensures a == b
    decreases |a|
  {
    if |b| != 0 {
      assert b[0] in b;
    }
    if |a| != 0 {
      assert a[0] in a && b[0] in b;
      assert |b| > 0;
      var k :| 0 <= k < |a| && a[k] == b[0];
      var l :| 0 <= l < |b| && b[l] == a[0];
      LessIrreflexive(a[0].name);
      if l > 0 {
        LessAsymmetric(b[0].name, a[0].name);
      }
      assert a[0] == b[0];
      StrictlySortedIsDistinct(a);
      StrictlySortedIsDistinct(b);
      forall p ensures p in a[1..] <==> p in b[1..] {
        if p in a[1..] {
          var i :| 0 <= i < |a[1..]| && a[1..][i] == p;
          assert a[i + 1] == p && p in a;
          var j :| 0 <= j < |b| && b[j] == p;
          assert j != 0 && b[1..][j - 1] == p;
        }
        if p in b[1..] {
          var i :| 0 <= i < |b[1..]| && b[1..][i] == p;
          assert b[i + 1] == p && p in b;
          var j :| 0 <= j < |a| && a[j] == p;
          assert j != 0 && a[1..][j - 1] == p;
        }
      }
      SortedTail(a);
      SortedTail(b);
      SortedUnique(a[1..], b[1..]);
      assert a == [a[0]] + a[1..] && b == [b[0]] + b[1..];
    }
  }

  lemma SortedTail(s: seq<Person>)
    requires StrictlySorted(s) && |s| > 0
    ensures StrictlySorted(s[1..])
  {
    forall i, j | 0 <= i < j < |s[1..]| ensures Less(s[1..][i].name, s[1..][j].name) {
      assert s[1..][i] == s[i + 1] && s[1..][j] == s[j + 1];
    }
  }
}
