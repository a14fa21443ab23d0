/** Lists of named items seen as plain tables: what the list edits of the engines do to the table. */
module NamedTables {
  import opened Wrappers

  ghost predicate Carries<T(!new)>(xs: seq<T>, name: T -> Option<string>, key: string) {
    exists i :: 0 <= i < |xs| && name(xs[i]) == Some(key)
  }

  /** Distinctly named items, and for each name what `view` makes of its item. */
  ghost predicate Lists<T(!new), V(!new)>(xs: seq<T>, name: T -> Option<string>, view: T -> V, v: map<string, V>) {
    && (forall i :: 0 <= i < |xs| ==> name(xs[i]).Some?)
    && (forall i, j :: 0 <= i < j < |xs| ==> name(xs[i]) != name(xs[j]))
    && (forall i :: 0 <= i < |xs| ==> name(xs[i]).value in v && v[name(xs[i]).value] == view(xs[i]))
    && (forall n :: n in v ==> Carries(xs, name, n))
  }

  lemma Appended<T(!new), V(!new)>(xs: seq<T>, name: T -> Option<string>, view: T -> V, v: map<string, V>, y: T)
    requires Lists(xs, name, view, v) && name(y).Some? && name(y).value !in v
    ensures Lists(xs + [y], name, view, v[name(y).value := view(y)])
  {
    var ys := xs + [y];
    assert ys[|xs|] == y;
    forall n | n in v ensures Carries(ys, name, n) {
      var i :| 0 <= i < |xs| && name(xs[i]) == Some(n);
      assert ys[i] == xs[i];
    }
  }

  lemma Replaced<T(!new), V(!new)>(xs: seq<T>, name: T -> Option<string>, view: T -> V, v: map<string, V>, i: nat, y: T)
    requires Lists(xs, name, view, v) && i < |xs| && name(y) == name(xs[i])
    ensures Lists(xs[i := y], name, view, v[name(y).value := view(y)])
  {
    var ys := xs[i := y];
    forall n | n in v ensures Carries(ys, name, n) {
      var j :| 0 <= j < |xs| && name(xs[j]) == Some(n);
      assert name(ys[j]) == Some(n);
    }
  }

  lemma Rekeyed<T(!new), V(!new)>(xs: seq<T>, name: T -> Option<string>, view: T -> V, v: map<string, V>, i: nat, y: T)
    requires Lists(xs, name, view, v) && i < |xs| && name(y).Some? && name(y).value !in v
    ensures Lists(xs[i := y], name, view, (v - {name(xs[i]).value})[name(y).value := view(y)])
  {
    var ys := xs[i := y];
    assert ys[i] == y;
    forall n | n in v && n != name(xs[i]).value ensures Carries(ys, name, n) {
      var j :| 0 <= j < |xs| && name(xs[j]) == Some(n);
      assert ys[j] == xs[j];
    }
  }

  lemma Dropped<T(!new), V(!new)>(xs: seq<T>, name: T -> Option<string>, view: T -> V, v: map<string, V>, i: nat)
    requires Lists(xs, name, view, v) && i < |xs|
    ensures Lists(xs[..i] + xs[i + 1..], name, view, v - {name(xs[i]).value})
  {
    var ys := xs[..i] + xs[i + 1..];
    forall k | 0 <= k < |ys| ensures ys[k] == xs[if k < i then k else k + 1] {}
    forall n | n in v && n != name(xs[i]).value ensures Carries(ys, name, n) {
      var j :| 0 <= j < |xs| && name(xs[j]) == Some(n);
      assert ys[if j < i then j else j - 1] == xs[j];
    }
  }

  lemma ItemOfRow<T(!new), V(!new)>(xs: seq<T>, name: T -> Option<string>, view: T -> V, v: map<string, V>, n: string)
    returns (i: nat)
    requires Lists(xs, name, view, v) && n in v
    ensures i < |xs| && name(xs[i]) == Some(n) && view(xs[i]) == v[n]
  {
    assert Carries(xs, name, n);
    i :| 0 <= i < |xs| && name(xs[i]) == Some(n);
  }

  lemma Permuted<T(!new), V(!new)>(xs: seq<T>, name: T -> Option<string>, view: T -> V, v: map<string, V>, ys: seq<T>)
    requires Lists(xs, name, view, v)
    requires forall i :: 0 <= i < |ys| ==> ys[i] in xs
    requires forall i :: 0 <= i < |xs| ==> xs[i] in ys
    requires forall i, j :: 0 <= i < j < |ys| ==> name(ys[i]) != name(ys[j])
    ensures Lists(ys, name, view, v)
  {
    forall n | n in v ensures Carries(ys, name, n) {
      var i := ItemOfRow(xs, name, view, v, n);
      var j :| 0 <= j < |ys| && ys[j] == xs[i];
      assert name(ys[j]) == Some(n);
    }
  }

  /** One edit of the item `key`: appended at the end, changed where it stands, or left out. */
  ghost predicate InOrder<T(!new)>(xs: seq<T>, ys: seq<T>, name: T -> Option<string>, key: string) {
    if |xs| < |ys| then xs == ys[..|ys| - 1] && name(ys[|ys| - 1]) == Some(key)
    else if |xs| == |ys| then forall i :: 0 <= i < |xs| && name(xs[i]) != Some(key) ==> ys[i] == xs[i]
    else exists i :: 0 <= i < |xs| && name(xs[i]) == Some(key) && ys == xs[..i] + xs[i + 1..]
  }
}
