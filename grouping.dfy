/**
 * Listing the keys of a dictionary group by group: for each label in a given order, the keys
 * carrying that label, in their own order. The reporter prints partitions this way, and
 * Python's stable `sorted(..., key=...)` is this listing over the sorted labels.
 */
module Grouping {
  import opened Dicts
  import opened Order

  /** Every key has a label. */
  predicate Labelled(keys: seq<string>, labels: map<string, string>) {
    forall k :: k in keys ==> k in labels
  }

  /** `[k for k in keys if labels[k] in wanted]` */
  function Pick(keys: seq<string>, labels: map<string, string>, wanted: set<string>): (r: seq<string>)
    requires Labelled(keys, labels)
    ensures forall k :: k in r <==> k in keys && labels[k] in wanted
  {
    if keys == [] then []
    else
      var init, k := keys[..|keys| - 1], keys[|keys| - 1];
      assert keys == init + [k];
      Pick(init, labels, wanted) + if labels[k] in wanted then [k] else []
  }

  /** The keys labelled `groups[0]`, then those labelled `groups[1]`, and so on. */
  function Grouped(keys: seq<string>, labels: map<string, string>, groups: seq<string>): (r: seq<string>)
    requires Labelled(keys, labels)
    ensures forall k :: k in r ==> k in keys && labels[k] in groups
  {
    if groups == [] then []
    else
      var init := groups[..|groups| - 1];
      assert groups == init + [groups[|groups| - 1]];
      Grouped(keys, labels, init) + Pick(keys, labels, {groups[|groups| - 1]})
  }

  lemma {:induction false} PickSplit(keys: seq<string>, labels: map<string, string>, a: set<string>, b: set<string>)
    requires Labelled(keys, labels) && a !! b
    ensures multiset(Pick(keys, labels, a + b)) == multiset(Pick(keys, labels, a)) + multiset(Pick(keys, labels, b))
  {
    if keys != [] {
      var init := keys[..|keys| - 1];
      assert Labelled(init, labels);
      PickSplit(init, labels, a, b);
    }
  }

  lemma {:induction false} PickEverything(keys: seq<string>, labels: map<string, string>, wanted: set<string>)
    requires Labelled(keys, labels) && forall k :: k in keys ==> labels[k] in wanted
    ensures Pick(keys, labels, wanted) == keys
  {
    if keys != [] {
      var init := keys[..|keys| - 1];
      assert keys == init + [keys[|keys| - 1]];
      PickEverything(init, labels, wanted);
    }
  }

  lemma {:induction false} PickNothing(keys: seq<string>, labels: map<string, string>, wanted: set<string>)
    requires Labelled(keys, labels) && forall k :: k in keys ==> labels[k] !in wanted
    ensures Pick(keys, labels, wanted) == []
  {
    if keys != [] {
      var init := keys[..|keys| - 1];
      assert keys == init + [keys[|keys| - 1]];
      PickNothing(init, labels, wanted);
    }
  }

  lemma {:induction false} PickConcat(a: seq<string>, b: seq<string>, labels: map<string, string>, wanted: set<string>)
    requires Labelled(a, labels) && Labelled(b, labels)
    ensures Labelled(a + b, labels)
    ensures Pick(a + b, labels, wanted) == Pick(a, labels, wanted) + Pick(b, labels, wanted)
  {
    if b != [] {
      var init := b[..|b| - 1];
      assert a + b == (a + init) + [b[|b| - 1]];
      PickConcat(a, init, labels, wanted);
    } else {
      assert a + b == a;
    }
  }

  lemma {:induction false} PickTwice(keys: seq<string>, labels: map<string, string>, a: set<string>, b: set<string>)
    requires Labelled(keys, labels)
    ensures Pick(Pick(keys, labels, a), labels, b) == Pick(keys, labels, a * b)
  {
    if keys != [] {
      var init, k := keys[..|keys| - 1], keys[|keys| - 1];
      assert keys == init + [k];
      PickTwice(init, labels, a, b);
      var front := Pick(init, labels, a);
      var last: seq<string> := if labels[k] in a then [k] else [];
      PickConcat(front, last, labels, b);
      if labels[k] in a {
        assert Pick(last, labels, b) == Pick([] + [k], labels, b);
        assert [] + [k] == [k];
      }
    }
  }

  /** With every label listed once, the grouped listing is a rearrangement of the keys: every
      key appears, and as often as it did. */
  lemma {:induction false} GroupedIsPermutation(keys: seq<string>, labels: map<string, string>, groups: seq<string>)
    requires Labelled(keys, labels) && Distinct(groups)
    requires forall k :: k in keys ==> labels[k] in groups
    ensures multiset(Grouped(keys, labels, groups)) == multiset(keys)
  {
    GroupedCollects(keys, labels, groups);
    PickEverything(keys, labels, Elements(groups));
  }

  /** The elements of `s`, as a set. */
  function Elements(s: seq<string>): (r: set<string>)
    ensures forall x :: x in r <==> x in s
  {
    if s == [] then {} else Elements(s[..|s| - 1]) + {s[|s| - 1]}
  }

  lemma {:induction false} GroupedCollects(keys: seq<string>, labels: map<string, string>, groups: seq<string>)
    requires Labelled(keys, labels) && Distinct(groups)
    ensures multiset(Grouped(keys, labels, groups)) == multiset(Pick(keys, labels, Elements(groups)))
  {
    if groups != [] {
      var init, g := groups[..|groups| - 1], groups[|groups| - 1];
      assert groups == init + [g];
      assert Distinct(init);
      GroupedCollects(keys, labels, init);
      assert g !in Elements(init);
      PickSplit(keys, labels, Elements(init), {g});
      assert Elements(groups) == Elements(init) + {g};
      var whole := Grouped(keys, labels, groups);
      assert whole == Grouped(keys, labels, init) + Pick(keys, labels, {g});
      assert multiset(whole) == multiset(Grouped(keys, labels, init)) + multiset(Pick(keys, labels, {g}));
    } else {
      PickNothing(keys, labels, {});
    }
  }

  /** Grouping keeps the order within a label: the keys carrying any one label come out in the
      order they went in (the listing is a stable sort by label). */
  lemma GroupedIsStable(keys: seq<string>, labels: map<string, string>, groups: seq<string>, g: string)
    requires Labelled(keys, labels) && Distinct(groups)
    requires forall k :: k in keys ==> labels[k] in groups
    ensures Labelled(Grouped(keys, labels, groups), labels)
    ensures Pick(Grouped(keys, labels, groups), labels, {g}) == Pick(keys, labels, {g})
  {
    GroupedPicks(keys, labels, groups, g);
    if g !in groups {
      PickNothing(keys, labels, {g});
    }
  }

  lemma {:induction false} GroupedPicks(keys: seq<string>, labels: map<string, string>, groups: seq<string>, g: string)
    requires Labelled(keys, labels) && Distinct(groups)
    ensures Labelled(Grouped(keys, labels, groups), labels)
    ensures Pick(Grouped(keys, labels, groups), labels, {g}) == if g in groups then Pick(keys, labels, {g}) else []
  {
    if groups != [] {
      var init, h := groups[..|groups| - 1], groups[|groups| - 1];
      assert groups == init + [h];
      GroupedPicks(keys, labels, init, g);
      var front := Grouped(keys, labels, init);
      var back := Pick(keys, labels, {h});
      PickConcat(front, back, labels, {g});
      PickTwice(keys, labels, {h}, {g});
      if g == h {
        assert {h} * {g} == {g};
      } else {
        assert {h} * {g} == {};
        PickNothing(keys, labels, {});
      }
    }
  }

  /** Over labels in ascending order, the grouped listing is sorted by label. */
  lemma {:induction false} GroupedIsSorted(keys: seq<string>, labels: map<string, string>, groups: seq<string>)
    requires Labelled(keys, labels) && StrictlySorted(groups)
    ensures forall i, j :: 0 <= i < j < |Grouped(keys, labels, groups)| ==>
      !Below(labels[Grouped(keys, labels, groups)[j]], labels[Grouped(keys, labels, groups)[i]])
  {
    if groups != [] {
      var init, h := groups[..|groups| - 1], groups[|groups| - 1];
      assert groups == init + [h];
      GroupedIsSorted(keys, labels, init);
      var front := Grouped(keys, labels, init);
      var back := Pick(keys, labels, {h});
      var r := front + back;
      forall i, j | 0 <= i < j < |r| ensures !Below(labels[r[j]], labels[r[i]]) {
        if j < |front| {
          assert r[i] == front[i] && r[j] == front[j];
        } else if i >= |front| {
          assert r[i] in back && r[j] in back;
          BelowIrreflexive(h);
        } else {
          assert r[i] in front && r[j] in back;
          var gi := labels[r[i]];
          assert gi in init;
          var m :| 0 <= m < |init| && init[m] == gi;
          assert Below(groups[m], groups[|groups| - 1]);
          BelowAsymmetric(gi, h);
        }
      }
    }
  }
}
