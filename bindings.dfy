/**
 * What activation records, on values: for each binding field in order, one
 * unsubscribe action when the visual tree has a button of that name, else
 * one when it has a dropdown of that name, else nothing.  Buttons take
 * priority: a field whose name matches a button is never looked up as a
 * dropdown.
 */
module Bindings {

  /** An unsubscribe action recorded at activation, by the field it was recorded for. */
  datatype Unsubscribe = DetachClick(field: string) | DetachValueChanged(field: string)

  /** No name occurs twice: each name differs from all names before it. */
  predicate Distinct(xs: seq<string>)
    decreases |xs|
  {
    |xs| == 0 || (Distinct(xs[..|xs| - 1]) && xs[|xs| - 1] !in xs[..|xs| - 1])
  }

  /** Distinct means that any two positions hold different names. */
  lemma {:induction false} DistinctPairwise(xs: seq<string>)
    ensures Distinct(xs) <==> forall i, j :: 0 <= i < j < |xs| ==> xs[i] != xs[j]
    decreases |xs|
  {
    if |xs| > 0 {
      var init := xs[..|xs| - 1];
      DistinctPairwise(init);
      if Distinct(xs) {
        forall i, j | 0 <= i < j < |xs|
          ensures xs[i] != xs[j]
        {
          if j == |xs| - 1 {
            assert xs[i] == init[i];
          } else {
            assert xs[i] == init[i] && xs[j] == init[j];
          }
        }
      }
      if forall i, j :: 0 <= i < j < |xs| ==> xs[i] != xs[j] {
        forall i, j | 0 <= i < j < |init|
          ensures init[i] != init[j]
        {
          assert init[i] == xs[i] && init[j] == xs[j];
        }
      }
    }
  }

  /** A prefix of distinct names is distinct, and no later name occurs in it. */
  lemma {:induction false} DistinctPrefix(xs: seq<string>, k: nat)
    requires Distinct(xs)
    requires k <= |xs|
    ensures Distinct(xs[..k])
    ensures forall j :: k <= j < |xs| ==> xs[j] !in xs[..k]
    decreases |xs|
  {
    if k == |xs| {
      assert xs[..k] == xs;
    } else {
      var init := xs[..|xs| - 1];
      DistinctPrefix(init, k);
      assert init[..k] == xs[..k];
      forall j | k <= j < |xs|
        ensures xs[j] !in xs[..k]
      {
        if j < |xs| - 1 {
          assert xs[j] == init[j];
        }
      }
    }
  }

  /** The name of the handler a binding dispatches to: "On" followed by the field name. */
  function HandlerName(field: string): (r: string)
    ensures |r| == |field| + 2 && r[2..] == field
  {
    "On" + field
  }

  /** Different fields dispatch to different handlers. */
  lemma HandlerNameInjective(a: string, b: string)
    requires HandlerName(a) == HandlerName(b)
    ensures a == b
  {
    assert a == HandlerName(a)[2..];
  }

  /** The unsubscribe actions recorded for one field. */
  function Registration(f: string, buttons: set<string>, dropdowns: set<string>): (r: seq<Unsubscribe>)
    ensures r == [] <==> f !in buttons && f !in dropdowns
  {
    if f in buttons then [DetachClick(f)]
    else if f in dropdowns then [DetachValueChanged(f)]
    else []
  }

  /** The unsubscribe actions recorded for the fields `fs`, in order. */
  function Registrations(fs: seq<string>, buttons: set<string>, dropdowns: set<string>): (r: seq<Unsubscribe>)
    decreases |fs|
  {
    if fs == [] then []
    else Registrations(fs[..|fs| - 1], buttons, dropdowns) + Registration(fs[|fs| - 1], buttons, dropdowns)
  }

  /** The fields of `fs` whose name is in `names`, in order. */
  function Matching(fs: seq<string>, names: set<string>): seq<string>
    decreases |fs|
  {
    if fs == [] then []
    else Matching(fs[..|fs| - 1], names) + (if fs[|fs| - 1] in names then [fs[|fs| - 1]] else [])
  }

  /** Registering one more field appends that field's actions. */
  lemma RegistrationsSnoc(fs: seq<string>, f: string, buttons: set<string>, dropdowns: set<string>)
    ensures Registrations(fs + [f], buttons, dropdowns)
         == Registrations(fs, buttons, dropdowns) + Registration(f, buttons, dropdowns)
  {
    assert (fs + [f])[..|fs|] == fs;
  }

  /**
   * One action per field that matches a button or a dropdown, in field
   * order; the action detaches a click exactly when the field matches a
   * button, and a value change otherwise.
   */
  lemma {:induction false} RegistrationsSpec(fs: seq<string>, buttons: set<string>, dropdowns: set<string>)
    ensures var r := Registrations(fs, buttons, dropdowns);
      var m := Matching(fs, buttons + dropdowns);
      && |r| == |m|
      && forall i :: 0 <= i < |r| ==>
           r[i].field == m[i] && (r[i].DetachClick? <==> m[i] in buttons)
    decreases |fs|
  {
    if fs != [] {
      RegistrationsSpec(fs[..|fs| - 1], buttons, dropdowns);
    }
  }

  /** A field is matched exactly when it is one of `fs` and its name is in `names`. */
  lemma {:induction false} MatchingMembers(fs: seq<string>, names: set<string>, f: string)
    ensures f in Matching(fs, names) <==> f in fs && f in names
    decreases |fs|
  {
    if fs != [] {
      var init := fs[..|fs| - 1];
      MatchingMembers(init, names, f);
      assert fs == init + [fs[|fs| - 1]];
    }
  }

  /** Matching keeps distinct fields distinct. */
  lemma {:induction false} MatchingDistinct(fs: seq<string>, names: set<string>)
    requires Distinct(fs)
    ensures Distinct(Matching(fs, names))
    decreases |fs|
  {
    if fs != [] {
      var init := fs[..|fs| - 1];
      var last := fs[|fs| - 1];
      MatchingDistinct(init, names);
      MatchingMembers(init, names, last);
      var m := Matching(init, names);
      if last in names {
        assert (m + [last])[..|m|] == m;
        assert last !in m;
      } else {
        assert Matching(fs, names) == m + [] == m;
      }
    }
  }

  /**
   * With distinct field names each field records at most one action, and a
   * field records one exactly when it matches a button or a dropdown.
   */
  lemma AtMostOnePerField(fs: seq<string>, buttons: set<string>, dropdowns: set<string>)
    requires Distinct(fs)
    ensures var r := Registrations(fs, buttons, dropdowns);
      && (forall i, j :: 0 <= i < j < |r| ==> r[i].field != r[j].field)
      && (forall f :: (exists i :: 0 <= i < |r| && r[i].field == f) <==> f in fs && (f in buttons || f in dropdowns))
  {
    var r := Registrations(fs, buttons, dropdowns);
    var m := Matching(fs, buttons + dropdowns);
    RegistrationsSpec(fs, buttons, dropdowns);
    MatchingDistinct(fs, buttons + dropdowns);
    DistinctPairwise(m);
    forall f
      ensures (exists i :: 0 <= i < |r| && r[i].field == f) <==> f in fs && (f in buttons || f in dropdowns)
    {
      MatchingMembers(fs, buttons + dropdowns, f);
      if f in m {
        var i :| 0 <= i < |m| && m[i] == f;
        assert r[i].field == f;
      }
    }
  }
}
