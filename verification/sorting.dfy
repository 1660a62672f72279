/** The sorted view's order: names compared character by character (standing
    in for String.prototype.localeCompare), and a stable sort of a copy of the
    roster by that order (Array.prototype.sort is stable). */
module NameSort {
  import opened Roster

  /** a comes no later than b: lexicographic order over characters, in which
      a proper prefix comes first. */
  predicate NameLeq(a: string, b: string)
    ensures |a| <= |b| && b[..|a|] == a ==> NameLeq(a, b)
    ensures NameLeq(a, b) && a != [] ==> b != [] && a[0] <= b[0]
    decreases |a|
  {
    a == [] || (b != [] && (a[0] < b[0] || (a[0] == b[0] && NameLeq(a[1..], b[1..]))))
  }

  lemma {:induction false} NameLeqReflexive(a: string)
    ensures NameLeq(a, a)
    decreases |a|
  {
    if a != [] {
      NameLeqReflexive(a[1..]);
    }
  }

  /** Any two names are comparable: the comparator never leaves a pair unordered. */
  lemma {:induction false} NameLeqTotal(a: string, b: string)
    ensures NameLeq(a, b) || NameLeq(b, a)
    decreases |a|
  {
    if a != [] && b != [] && a[0] == b[0] {
      NameLeqTotal(a[1..], b[1..]);
    }
  }

  lemma {:induction false} NameLeqTransitive(a: string, b: string, c: string)
    requires NameLeq(a, b) && NameLeq(b, c)
    ensures NameLeq(a, c)
    decreases |a|
  {
    if a != [] && a[0] == b[0] && b[0] == c[0] {
      NameLeqTransitive(a[1..], b[1..], c[1..]);
    }
  }

  /** Names that each come no later than the other are the same name. */
  lemma {:induction false} NameLeqAntisymmetric(a: string, b: string)
    requires NameLeq(a, b) && NameLeq(b, a)
    ensures a == b
    decreases |a|
  {
    if a != [] {
      NameLeqAntisymmetric(a[1..], b[1..]);
      assert a == [a[0]] + a[1..] && b == [b[0]] + b[1..];
    }
  }

  /** Names never decrease from one record to any later one. */
  predicate SortedByName(s: seq<Employee>)
  {
    forall i, j :: 0 <= i < j < |s| ==> NameLeq(s[i].name, s[j].name)
  }

  /** Puts x in front of the first record whose name it does not exceed. */
  function Insert(x: Employee, s: seq<Employee>): (r: seq<Employee>)
    ensures multiset(r) == multiset(s) + multiset{x}
    ensures |r| == |s| + 1
  {
    if s == [] then [x]
    else if NameLeq(x.name, s[0].name) then [x] + s
    else
      assert s == [s[0]] + s[1..];
      [s[0]] + Insert(x, s[1..])
  }

  lemma {:induction false} InsertKeepsSorted(x: Employee, s: seq<Employee>)
    requires SortedByName(s)
    ensures SortedByName(Insert(x, s))
    decreases |s|
  {
    if s == [] {
    } else if NameLeq(x.name, s[0].name) {
      forall j | 0 <= j < |s|
        ensures NameLeq(x.name, s[j].name)
      {
        if j > 0 {
          NameLeqTransitive(x.name, s[0].name, s[j].name);
        }
      }
    } else {
      NameLeqTotal(x.name, s[0].name);
      InsertKeepsSorted(x, s[1..]);
      var t := Insert(x, s[1..]);
      forall j | 0 <= j < |t|
        ensures NameLeq(s[0].name, t[j].name)
      {
        assert t[j] in multiset(t);
        if t[j] != x {
          assert t[j] in multiset(s[1..]);
          var k :| 0 <= k < |s[1..]| && s[1..][k] == t[j];
          assert s[k + 1] == t[j];
        }
      }
      assert Insert(x, s) == [s[0]] + t;
    }
  }

  /** The sorted view's record order: a sorted copy of the roster. */
  function SortByName(s: seq<Employee>): (r: seq<Employee>)
    ensures multiset(r) == multiset(s)
    ensures |r| == |s|
    ensures SortedByName(r)
  {
    if s == [] then []
    else
      var rest := SortByName(s[1..]);
      InsertKeepsSorted(s[0], rest);
      assert s == [s[0]] + s[1..];
      Insert(s[0], rest)
  }

  /** The records of s named exactly n, in order. */
  function NamedAs(s: seq<Employee>, n: string): seq<Employee>
  {
    if s == [] then []
    else (if s[0].name == n then [s[0]] else []) + NamedAs(s[1..], n)
  }

  lemma NamedAsCons(y: Employee, t: seq<Employee>, n: string)
    ensures NamedAs([y] + t, n) == (if y.name == n then [y] else []) + NamedAs(t, n)
  {
    assert ([y] + t)[1..] == t;
  }

  lemma {:induction false} InsertStable(x: Employee, t: seq<Employee>, n: string)
    ensures NamedAs(Insert(x, t), n) == (if x.name == n then [x] else []) + NamedAs(t, n)
    decreases |t|
  {
    if t == [] {
    } else if NameLeq(x.name, t[0].name) {
      NamedAsCons(x, t, n);
    } else {
      var t' := t[1..];
      assert t == [t[0]] + t';
      NameLeqReflexive(x.name);
      assert t[0].name != x.name;
      InsertStable(x, t', n);
      NamedAsCons(t[0], Insert(x, t'), n);
      NamedAsCons(t[0], t', n);
    }
  }

  /** Sorting is stable: records with the same name keep their roster order. */
  lemma {:induction false} SortIsStable(s: seq<Employee>, n: string)
    ensures NamedAs(SortByName(s), n) == NamedAs(s, n)
    decreases |s|
  {
    if s != [] {
      InsertStable(s[0], SortByName(s[1..]), n);
      SortIsStable(s[1..], n);
    }
  }

  /** A roster already in name order comes out of the sort unchanged. */
  lemma {:induction false} SortOfSortedIsIdentity(s: seq<Employee>)
    requires SortedByName(s)
    ensures SortByName(s) == s
    decreases |s|
  {
    if s != [] {
      assert SortedByName(s[1..]);
      SortOfSortedIsIdentity(s[1..]);
      if s[1..] == [] {
        assert s == [s[0]];
      } else {
        assert NameLeq(s[0].name, s[1].name);
        assert s == [s[0]] + s[1..];
      }
    }
  }

  /** Sorting twice gives the same rows as sorting once. */
  lemma SortIsIdempotent(s: seq<Employee>)
    ensures SortByName(SortByName(s)) == SortByName(s)
  {
    SortOfSortedIsIdentity(SortByName(s));
  }
}
