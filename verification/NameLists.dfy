/** Lists of names as the engines keep them: declaration orders, imports and their pins. */
module NameLists {
  import opened Wrappers

  /** The first position of a name. */
  function IndexOf(xs: seq<string>, x: string): (r: Option<nat>)
    ensures r.Some? ==> r.value < |xs| && xs[r.value] == x
    ensures r.None? ==> x !in xs
    ensures r.Some? ==> forall i :: 0 <= i < r.value ==> xs[i] != x
  {
    if xs == [] then None
    else if xs[0] == x then Some(0)
    else
      match IndexOf(xs[1..], x)
      case None => None
      case Some(i) => Some(i + 1)
  }

  /** `resize` with empty strings. */
  function Resized(pins: seq<string>, n: nat): (r: seq<string>)
    ensures |r| == n
    ensures forall i :: 0 <= i < n ==> r[i] == if i < |pins| then pins[i] else ""
  {
    if |pins| >= n then pins[..n] else pins + seq(n - |pins|, i => "")
  }

  function RenamedOrder(order: seq<string>, from: string, to: string): (r: seq<string>)
    ensures |r| == |order|
    ensures forall i :: 0 <= i < |order| ==> r[i] == if order[i] == from then to else order[i]
  {
    seq(|order|, i requires 0 <= i < |order| => if order[i] == from then to else order[i])
  }

  /** Renaming to a new name and back restores the list. */
  lemma OrderRestored(order: seq<string>, from: string, to: string)
    requires to !in order
    ensures RenamedOrder(RenamedOrder(order, from, to), to, from) == order
  {}

  function Without(order: seq<string>, name: string): seq<string> {
    if order == [] then []
    else if order[0] == name then Without(order[1..], name)
    else [order[0]] + Without(order[1..], name)
  }

  /** Dropping the name just appended. */
  lemma {:induction false} WithoutAppended(order: seq<string>, name: string)
    requires name !in order
    ensures Without(order + [name], name) == order
  {
    if order == [] {
      assert [name][1..] == [];
    } else {
      assert (order + [name])[0] == order[0] && (order + [name])[1..] == order[1..] + [name];
      WithoutAppended(order[1..], name);
    }
  }

  /** The two names exchanged. */
  function Swap(n: string, a: string, b: string): string {
    if n == a then b else if n == b then a else n
  }

  /** After `from` became `to`, a value is used exactly when what it was before was. */
  ghost predicate UseMoved(used: bool, usedFrom: bool, usedNow: bool, v: string, from: string, to: string) {
    usedNow <==> if v == to then usedFrom || used else v != from && used
  }

  predicate Distinct(order: seq<string>) { forall i, j :: 0 <= i < j < |order| ==> order[i] != order[j] }

  /** The list names each of `names` once and nothing else. */
  ghost predicate Orders(order: seq<string>, names: set<string>) {
    (forall n :: n in order <==> n in names) && Distinct(order)
  }

  lemma {:induction false} WithoutMembers(order: seq<string>, name: string)
    ensures forall n :: n in Without(order, name) <==> n in order && n != name
  {
    if order != [] {
      WithoutMembers(order[1..], name);
      assert order == [order[0]] + order[1..];
    }
  }

  lemma {:induction false} WithoutDistinct(order: seq<string>, name: string)
    requires Distinct(order)
    ensures Distinct(Without(order, name))
  {
    if order != [] {
      var rest := Without(order[1..], name);
      WithoutDistinct(order[1..], name);
      WithoutMembers(order[1..], name);
      forall j | 0 <= j < |rest| ensures order[0] != rest[j] {
        assert rest[j] in order[1..];
      }
    }
  }

  lemma OrdersWithout(order: seq<string>, names: set<string>, name: string)
    requires Orders(order, names)
    ensures Orders(Without(order, name), names - {name})
  {
    WithoutMembers(order, name);
    WithoutDistinct(order, name);
  }

  lemma OrdersAppended(order: seq<string>, names: set<string>, name: string)
    requires Orders(order, names) && name !in names
    ensures Orders(order + [name], names + {name})
  {}

  lemma OrdersRenamed(order: seq<string>, names: set<string>, from: string, to: string)
    requires Orders(order, names) && from in names && (to == from || to !in names)
    ensures Orders(RenamedOrder(order, from, to), names - {from} + {to})
  {
    var renamed := RenamedOrder(order, from, to);
    forall n | n in names - {from} + {to} ensures n in renamed {
      var k :| 0 <= k < |order| && order[k] == if n == to then from else n;
      assert renamed[k] == n;
    }
  }

  // ----- declarations under their own names -----

  /** Each declaration stands under its own name, and the order lists each once. */
  ghost predicate Catalogued<T(!new)>(decls: map<string, T>, nameOf: T -> Option<string>, order: seq<string>) {
    (forall n :: n in decls ==> nameOf(decls[n]) == Some(n)) && Orders(order, decls.Keys)
  }

  lemma AddCatalogued<T(!new)>(decls: map<string, T>, nameOf: T -> Option<string>, order: seq<string>,
                               name: string, added: T)
    requires Catalogued(decls, nameOf, order) && name !in decls && nameOf(added) == Some(name)
    ensures Catalogued(decls[name := added], nameOf, order + [name])
  {
    OrdersAppended(order, decls.Keys, name);
    assert decls[name := added].Keys == decls.Keys + {name};
  }

  lemma DropCatalogued<T(!new)>(decls: map<string, T>, nameOf: T -> Option<string>, order: seq<string>, name: string)
    requires Catalogued(decls, nameOf, order)
    ensures Catalogued(decls - {name}, nameOf, Without(order, name))
  {
    OrdersWithout(order, decls.Keys, name);
    assert (decls - {name}).Keys == decls.Keys - {name};
  }

  lemma MoveCatalogued<T(!new)>(decls: map<string, T>, nameOf: T -> Option<string>, order: seq<string>,
                                from: string, to: string, moved: T)
    requires Catalogued(decls, nameOf, order) && from in decls && nameOf(moved) == Some(to)
    requires to == from || to !in decls
    ensures Catalogued((decls - {from})[to := moved], nameOf, RenamedOrder(order, from, to))
  {
    OrdersRenamed(order, decls.Keys, from, to);
    assert (decls - {from})[to := moved].Keys == decls.Keys - {from} + {to};
  }

  /** Rewriting declarations without renaming any. */
  lemma EditCatalogued<T(!new)>(decls: map<string, T>, edited: map<string, T>, nameOf: T -> Option<string>,
                                order: seq<string>)
    requires Catalogued(decls, nameOf, order) && edited.Keys == decls.Keys
    requires forall n :: n in decls ==> nameOf(edited[n]) == nameOf(decls[n])
    ensures Catalogued(edited, nameOf, order)
  {}
}
