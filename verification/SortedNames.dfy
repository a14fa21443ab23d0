/** Sorting named items: the order of names, insertion, and what the sorted list of a set of items is. */
module SortedNames {

  /** The lexicographic order of strings, by code point. */
  predicate LexLess(a: string, b: string) {
    b != "" && (a == "" || a[0] < b[0] || (a[0] == b[0] && LexLess(a[1..], b[1..])))
  }

  lemma {:induction false} LexTransitive(a: string, b: string, c: string)
    requires LexLess(a, b) && LexLess(b, c)
    ensures LexLess(a, c)
  {
    if a != "" && a[0] == b[0] == c[0] {
      LexTransitive(a[1..], b[1..], c[1..]);
    }
  }

  lemma {:induction false} LexIrreflexive(a: string)
    ensures !LexLess(a, a)
  {
    if a != "" {
      LexIrreflexive(a[1..]);
    }
  }

  lemma {:induction false} LexTotal(a: string, b: string)
    ensures a == b || LexLess(a, b) || LexLess(b, a)
  {
    if a != "" && b != "" && a[0] == b[0] {
      LexTotal(a[1..], b[1..]);
      assert a == [a[0]] + a[1..] && b == [b[0]] + b[1..];
    }
  }

  function InsertByName<T>(x: T, sorted: seq<T>, name: T -> string): seq<T> {
    if sorted == [] || LexLess(name(x), name(sorted[0])) then [x] + sorted
    else [sorted[0]] + InsertByName(x, sorted[1..], name)
  }

  function SortByName<T>(items: seq<T>, name: T -> string): seq<T> {
    if items == [] then [] else InsertByName(items[0], SortByName(items[1..], name), name)
  }

  ghost predicate DistinctNames<T>(items: seq<T>, name: T -> string) {
    forall i, j :: 0 <= i < j < |items| ==> name(items[i]) != name(items[j])
  }

  ghost predicate SortedByName<T>(items: seq<T>, name: T -> string) {
    forall i, j :: 0 <= i < j < |items| ==> LexLess(name(items[i]), name(items[j]))
  }

  lemma {:induction false} InsertSorts<T(!new)>(x: T, sorted: seq<T>, name: T -> string)
    requires SortedByName(sorted, name) && forall y :: y in sorted ==> name(y) != name(x)
    ensures forall y :: y in InsertByName(x, sorted, name) <==> y == x || y in sorted
    ensures SortedByName(InsertByName(x, sorted, name), name)
  {
    if sorted != [] {
      if LexLess(name(x), name(sorted[0])) {
        forall i | 0 <= i < |sorted| ensures LexLess(name(x), name(sorted[i])) {
          if i > 0 {
            LexTransitive(name(x), name(sorted[0]), name(sorted[i]));
          }
        }
      } else {
        LexTotal(name(x), name(sorted[0]));
        InsertSorts(x, sorted[1..], name);
        var rest := InsertByName(x, sorted[1..], name);
        forall y | y in rest ensures LexLess(name(sorted[0]), name(y)) {
          assert y == x || y in sorted[1..];
        }
        assert forall y :: y in sorted <==> y == sorted[0] || y in sorted[1..];
      }
    }
  }

  /** The sorted list of distinctly named items holds the same items, each name before the next. */
  lemma {:induction false} SortSorts<T(!new)>(items: seq<T>, name: T -> string)
    requires DistinctNames(items, name)
    ensures SortedByName(SortByName(items, name), name)
    ensures forall y :: y in SortByName(items, name) <==> y in items
  {
    if items != [] {
      SortSorts(items[1..], name);
      InsertSorts(items[0], SortByName(items[1..], name), name);
      assert forall y :: y in items <==> y == items[0] || y in items[1..];
    }
  }

  lemma HasMember<T(!new)>(items: seq<T>)
    ensures items != [] ==> exists x :: x in items
  {
    if items != [] {
      assert items[0] in items;
    }
  }

  lemma SameFirst<T(!new)>(a: seq<T>, b: seq<T>, name: T -> string)
    requires SortedByName(a, name) && SortedByName(b, name) && (forall y :: y in a <==> y in b) && a != [] && b != []
    ensures a[0] == b[0]
  {
    assert a[0] in b && b[0] in a;
    var i :| 0 <= i < |a| && a[i] == b[0];
    var j :| 0 <= j < |b| && b[j] == a[0];
    if i > 0 && j > 0 {
      LexTransitive(name(a[0]), name(b[0]), name(a[0]));
      LexIrreflexive(name(a[0]));
    }
  }

  lemma TailOf<T(!new)>(a: seq<T>, name: T -> string, y: T)
    requires SortedByName(a, name) && a != []
    ensures y in a[1..] <==> y in a && y != a[0]
  {
    LexIrreflexive(name(a[0]));
  }

  lemma SortedIsDistinct<T>(items: seq<T>, name: T -> string)
    requires SortedByName(items, name)
    ensures DistinctNames(items, name)
  {
    forall i, j | 0 <= i < j < |items| ensures name(items[i]) != name(items[j]) {
      LexIrreflexive(name(items[i]));
    }
  }

  /** There is one sorted list of a set of items. */
  lemma {:induction false} SortedUnique<T(!new)>(a: seq<T>, b: seq<T>, name: T -> string)
    requires SortedByName(a, name) && SortedByName(b, name) && forall y :: y in a <==> y in b
    ensures a == b
  {
    if a == [] || b == [] {
      HasMember(a);
      HasMember(b);
    } else {
      SameFirst(a, b, name);
      forall y ensures y in a[1..] <==> y in b[1..] {
        TailOf(a, name, y);
        TailOf(b, name, y);
      }
      SortedUnique(a[1..], b[1..], name);
    }
  }
}
