/**
 * What the `DeleteItems` undo command keeps about a deletion, for either
 * kind of arrow: the selected items, the arrows that go with a deleted
 * object (the cascade), and the scene lists left after removal.
 */
module Deletion {
  import opened Geometry
  import opened Nodes

  /** A selected scene item: an Object, or an arrow of kind `A`. */
  datatype Item<A> = ObjectEntry(obj: ObjectNode) | ArrowEntry(arrow: A)

  /** An arrow together with the source and target it had when it was recorded. */
  datatype Link<A> = Link(arrow: A, source: ObjectNode?, target: ObjectNode?)

  /** What is kept to restore one selected item. */
  datatype Record<A> = ObjectRecord(obj: ObjectNode, position: Point) | ArrowRecord(link: Link<A>)

  /** The arrow starts or ends at `o`. */
  predicate Touches<A>(l: Link<A>, o: ObjectNode)
  {
    l.source == o || l.target == o
  }

  /** The arrow is itself among the selected items. */
  predicate Selected<A(==)>(l: Link<A>, items: seq<Item<A>>)
  {
    ArrowEntry(l.arrow) in items
  }

  /** The arrows of `scene` that go with the deleted object `o`, in scene order. */
  function TouchingOf<A(==)>(o: ObjectNode, scene: seq<Link<A>>, items: seq<Item<A>>): seq<Link<A>>
  {
    if scene == [] then []
    else
      var last := scene[|scene| - 1];
      TouchingOf(o, scene[..|scene| - 1], items) + (if Touches(last, o) && !Selected(last, items) then [last] else [])
  }

  /** One more link of the scene is kept exactly when it touches `o` and is not selected. */
  lemma TouchingPrefix<A>(o: ObjectNode, scene: seq<Link<A>>, i: nat, items: seq<Item<A>>)
    requires i < |scene|
    ensures TouchingOf(o, scene[..i + 1], items)
      == TouchingOf(o, scene[..i], items) + (if Touches(scene[i], o) && !Selected(scene[i], items) then [scene[i]] else [])
  {
    assert scene[..i + 1][..i] == scene[..i];
  }

  /** The cascade of the objects among `sel`, each object in turn; `items` is the whole selection. */
  function CascadeFrom<A(==)>(sel: seq<Item<A>>, items: seq<Item<A>>, scene: seq<Link<A>>): seq<Link<A>>
  {
    if sel == [] then []
    else
      CascadeFrom(sel[..|sel| - 1], items, scene)
      + (match sel[|sel| - 1] case ObjectEntry(o) => TouchingOf(o, scene, items) case ArrowEntry(_) => [])
  }

  /** The cascade of a deletion of `items` from a scene whose arrows are `scene`. */
  function Cascade<A(==)>(items: seq<Item<A>>, scene: seq<Link<A>>): seq<Link<A>>
  {
    CascadeFrom(items, items, scene)
  }

  /** How many selected objects among `sel` the arrow touches, counting repeats. */
  function TouchCount<A>(sel: seq<Item<A>>, l: Link<A>): nat
  {
    if sel == [] then 0
    else
      TouchCount(sel[..|sel| - 1], l)
      + (match sel[|sel| - 1] case ObjectEntry(o) => (if Touches(l, o) then 1 else 0) case ArrowEntry(_) => 0)
  }

  /** An arrow goes with `o` once for each time the scene lists it. */
  lemma {:induction false} TouchingCount<A>(o: ObjectNode, scene: seq<Link<A>>, items: seq<Item<A>>, l: Link<A>)
    ensures multiset(TouchingOf(o, scene, items))[l] == if Touches(l, o) && !Selected(l, items) then multiset(scene)[l] else 0
  {
    if scene != [] {
      var init, last := scene[..|scene| - 1], scene[|scene| - 1];
      assert scene == init + [last];
      TouchingCount(o, init, items, l);
      var prev := TouchingOf(o, init, items);
      var here := if Touches(last, o) && !Selected(last, items) then [last] else [];
      assert TouchingOf(o, scene, items) == prev + here;
      assert multiset(prev + here)[l] == multiset(prev)[l] + multiset(here)[l];
      assert multiset(scene)[l] == multiset(init)[l] + multiset([last])[l];
    }
  }

  /**
   * An arrow that is not selected itself is recorded once for every deleted
   * object it touches and every time the scene lists it; a selected arrow
   * is never part of the cascade.
   */
  lemma {:induction false} CascadeCount<A>(sel: seq<Item<A>>, items: seq<Item<A>>, scene: seq<Link<A>>, l: Link<A>)
    ensures multiset(CascadeFrom(sel, items, scene))[l] == if Selected(l, items) then 0 else TouchCount(sel, l) * multiset(scene)[l]
  {
    if sel != [] {
      var init := sel[..|sel| - 1];
      CascadeCount(init, items, scene, l);
      var m := multiset(scene)[l];
      match sel[|sel| - 1]
      case ObjectEntry(o) =>
        TouchingCount(o, scene, items, l);
        var prev, here := CascadeFrom(init, items, scene), TouchingOf(o, scene, items);
        assert CascadeFrom(sel, items, scene) == prev + here;
        assert multiset(prev + here)[l] == multiset(prev)[l] + multiset(here)[l];
        var t := if Touches(l, o) then 1 else 0;
        assert TouchCount(sel, l) == TouchCount(init, l) + t;
        assert (TouchCount(init, l) + t) * m == TouchCount(init, l) * m + t * m;
      case ArrowEntry(_) =>
        assert CascadeFrom(sel, items, scene) == CascadeFrom(init, items, scene) + [];
    }
  }

  /**
   * The cascade holds exactly the scene's arrows that touch a deleted object
   * and are not themselves selected.
   */
  lemma CascadeMembers<A>(items: seq<Item<A>>, scene: seq<Link<A>>, l: Link<A>)
    ensures l in Cascade(items, scene) <==> l in scene && !Selected(l, items) && TouchCount(items, l) > 0
  {
    CascadeCount(items, items, scene, l);
    assert l in Cascade(items, scene) <==> multiset(Cascade(items, scene))[l] > 0;
    assert l in scene <==> multiset(scene)[l] > 0;
    ProductPositive(TouchCount(items, l), multiset(scene)[l]);
  }

  lemma ProductPositive(a: nat, b: nat)
    ensures a * b > 0 <==> a > 0 && b > 0
  {
    if a > 0 && b > 0 {
      assert a * b >= 1 * b;
    }
  }

  /** An arrow between two deleted objects, listed once by the scene, is recorded twice. */
  lemma CascadeTwice<A>(x: ObjectNode, y: ObjectNode, scene: seq<Link<A>>, l: Link<A>)
    requires x != y && l.source == x && l.target == y && multiset(scene)[l] == 1
    ensures multiset(Cascade([ObjectEntry(x), ObjectEntry(y)], scene))[l] == 2
  {
    var items: seq<Item<A>> := [ObjectEntry(x), ObjectEntry(y)];
    CascadeCount(items, items, scene, l);
    assert ArrowEntry(l.arrow) !in items;
    assert items[..1] == [ObjectEntry(x)] && items[..1][..0] == [];
    assert TouchCount(items[..1], l) == 1;
    assert TouchCount(items, l) == 2;
  }

  /** A deleted object's count is positive for every arrow touching it. */
  lemma {:induction false} TouchCountPositive<A>(sel: seq<Item<A>>, l: Link<A>, o: ObjectNode)
    requires ObjectEntry(o) in sel
    ensures Touches(l, o) ==> TouchCount(sel, l) > 0
  {
    var init := sel[..|sel| - 1];
    if sel[|sel| - 1] != ObjectEntry(o) {
      assert sel == init + [sel[|sel| - 1]];
      TouchCountPositive(init, l, o);
    }
  }

  /**
   * Every arrow of the scene that touches a deleted object and is not
   * itself selected is in the cascade, and the cascade holds nothing else.
   */
  lemma CascadeCovers<A>(items: seq<Item<A>>, scene: seq<Link<A>>, l: Link<A>, o: ObjectNode)
    requires l in scene && ObjectEntry(o) in items && Touches(l, o) && !Selected(l, items)
    ensures l in Cascade(items, scene)
  {
    TouchCountPositive(items, l, o);
    CascadeMembers(items, scene, l);
  }

  /** The cascade only records arrows the scene holds. */
  lemma CascadeWithinScene<A>(items: seq<Item<A>>, scene: seq<Link<A>>)
    ensures forall l :: l in Cascade(items, scene) ==> l in scene
  {
    forall l | l in Cascade(items, scene)
      ensures l in scene
    {
      CascadeMembers(items, scene, l);
    }
  }

  /** The arrows some links are about. */
  function ArrowsOf<A(==)>(links: seq<Link<A>>): set<A>
  {
    set l | l in links :: l.arrow
  }

  /** The objects of the object records. */
  function RecordedObjects<A(==)>(records: seq<Record<A>>): set<ObjectNode>
  {
    set r | r in records && r.ObjectRecord? :: r.obj
  }

  /** The arrows of the arrow records. */
  function RecordedArrows<A(==)>(records: seq<Record<A>>): set<A>
  {
    set r | r in records && r.ArrowRecord? :: r.link.arrow
  }

  /** Two records of the same object, or of the same arrow, are equal. */
  ghost predicate RecordsAgree<A>(r1: Record<A>, r2: Record<A>)
  {
    && (r1.ObjectRecord? && r2.ObjectRecord? && r1.obj == r2.obj ==> r1 == r2)
    && (r1.ArrowRecord? && r2.ArrowRecord? && r1.link.arrow == r2.link.arrow ==> r1 == r2)
  }

  /** Two links of the same arrow are equal. */
  ghost predicate LinksAgree<A>(l1: Link<A>, l2: Link<A>)
  {
    l1.arrow == l2.arrow ==> l1 == l2
  }

  /** One more link adds its arrow. */
  lemma ArrowsOfSnoc<A>(links: seq<Link<A>>, l: Link<A>)
    ensures ArrowsOf(links + [l]) == ArrowsOf(links) + {l.arrow}
  {
    assert l in links + [l];
  }

  /** One more record adds its object or its arrow. */
  lemma RecordedSnoc<A>(records: seq<Record<A>>, r: Record<A>)
    ensures RecordedObjects(records + [r]) == RecordedObjects(records) + (if r.ObjectRecord? then {r.obj} else {})
    ensures RecordedArrows(records + [r]) == RecordedArrows(records) + (if r.ArrowRecord? then {r.link.arrow} else {})
  {
    assert r in records + [r];
  }

  /** The first `i + 1` links add link `i`'s arrow to the first `i`. */
  lemma ArrowsOfPrefix<A>(links: seq<Link<A>>, i: nat)
    requires i < |links|
    ensures ArrowsOf(links[..i + 1]) == ArrowsOf(links[..i]) + {links[i].arrow}
  {
    assert links[..i + 1] == links[..i] + [links[i]];
    ArrowsOfSnoc(links[..i], links[i]);
  }

  /** The first `i + 1` records add record `i`'s object or arrow to the first `i`. */
  lemma RecordedPrefix<A>(records: seq<Record<A>>, i: nat)
    requires i < |records|
    ensures RecordedObjects(records[..i + 1]) ==
      RecordedObjects(records[..i]) + (if records[i].ObjectRecord? then {records[i].obj} else {})
    ensures RecordedArrows(records[..i + 1]) ==
      RecordedArrows(records[..i]) + (if records[i].ArrowRecord? then {records[i].link.arrow} else {})
  {
    assert records[..i + 1] == records[..i] + [records[i]];
    RecordedSnoc(records[..i], records[i]);
  }

  /**
   * All records of one object agree, and so do all records of one arrow,
   * as they do when they are all taken at the same moment.
   */
  ghost predicate Consistent<A>(records: seq<Record<A>>, cascade: seq<Link<A>>)
  {
    && (forall i, j :: 0 <= i < |records| && 0 <= j < |records| ==> RecordsAgree(records[i], records[j]))
    && (forall i, j :: 0 <= i < |cascade| && 0 <= j < |cascade| ==> LinksAgree(cascade[i], cascade[j]))
    && (forall i, j :: 0 <= i < |records| && 0 <= j < |cascade| && records[i].ArrowRecord? ==>
          LinksAgree(records[i].link, cascade[j]))
  }

  /** `s` without the elements of `gone`, in order. */
  function Without<T(==)>(s: seq<T>, gone: set<T>): (r: seq<T>)
    ensures |r| <= |s|
  {
    if s == [] then []
    else
      Without(s[..|s| - 1], gone) + (if s[|s| - 1] in gone then [] else [s[|s| - 1]])
  }

  /** What is left is exactly what was there and not removed. */
  lemma {:induction false} WithoutMembers<T>(s: seq<T>, gone: set<T>, y: T)
    ensures y in Without(s, gone) <==> y in s && y !in gone
  {
    if s != [] {
      var init, last := s[..|s| - 1], s[|s| - 1];
      assert s == init + [last];
      WithoutMembers(init, gone, y);
    }
  }

  /** Removing nothing changes nothing. */
  lemma {:induction false} WithoutNothing<T>(s: seq<T>)
    ensures Without(s, {}) == s
  {
    if s != [] {
      WithoutNothing(s[..|s| - 1]);
      assert s == s[..|s| - 1] + [s[|s| - 1]];
    }
  }

  /** Removing from a list with one more element at the end. */
  lemma WithoutSnoc<T>(s: seq<T>, y: T, gone: set<T>)
    ensures Without(s + [y], gone) == Without(s, gone) + (if y in gone then [] else [y])
  {
    assert (s + [y])[..|s|] == s;
  }

  /** Removing two groups one after the other is removing both at once. */
  lemma {:induction false} WithoutBoth<T>(s: seq<T>, first: set<T>, second: set<T>)
    ensures Without(Without(s, first), second) == Without(s, first + second)
  {
    if s != [] {
      var init, last := s[..|s| - 1], s[|s| - 1];
      assert s == init + [last];
      WithoutBoth(init, first, second);
      WithoutSnoc(init, last, first);
      WithoutSnoc(init, last, first + second);
      var w := Without(init, first);
      if last in first {
        assert Without(s, first) == w + [] == w;
        assert Without(s, first + second) == Without(init, first + second) + [];
      } else {
        assert Without(s, first) == w + [last];
        WithoutSnoc(w, last, second);
        assert (last in first + second) == (last in second);
      }
    }
  }

  /** Removing an element that is already gone changes nothing. */
  lemma WithoutGone<T>(s: seq<T>, gone: set<T>, x: T)
    requires x !in Without(s, gone)
    ensures Without(s, gone + {x}) == Without(s, gone)
  {
    WithoutBoth(s, gone, {x});
    WithoutAbsent(Without(s, gone), {x});
  }

  /** Adding an element removed before, when it was not there, gives the list back. */
  lemma {:induction false} WithoutAppended<T>(s: seq<T>, x: T)
    requires x !in s
    ensures Without(s + [x], {x}) == s
  {
    assert (s + [x])[..|s|] == s;
    WithoutAbsent(s, {x});
  }

  /** Removing elements that are not there changes nothing. */
  lemma {:induction false} WithoutAbsent<T>(s: seq<T>, gone: set<T>)
    requires forall x :: x in gone ==> x !in s
    ensures Without(s, gone) == s
  {
    if s != [] {
      var init := s[..|s| - 1];
      assert forall x :: x in init ==> x in s;
      WithoutAbsent(init, gone);
      assert s == init + [s[|s| - 1]];
    }
  }

  /** The elements of a list, as a set. */
  function Members<T(==)>(s: seq<T>): set<T>
  {
    set x | x in s
  }

  /** Adding makes the element a member and changes no other membership. */
  lemma AddedMembers<T>(s: seq<T>, x: T)
    ensures Members(Added(s, x)) == Members(s) + {x}
  {
    if x in s {
      assert x in Members(s);
    } else {
      forall y
        ensures y in Members(s + [x]) <==> y in Members(s) + {x}
      {
        assert y in s + [x] <==> y in s || y == x;
      }
    }
  }

  /** Removing takes exactly the removed elements out of the members. */
  lemma WithoutMembersSet<T>(s: seq<T>, gone: set<T>)
    ensures Members(Without(s, gone)) == Members(s) - gone
  {
    forall y
      ensures y in Members(Without(s, gone)) <==> y in Members(s) - gone
    {
      WithoutMembers(s, gone, y);
      assert y in Members(Without(s, gone)) <==> y in Without(s, gone);
      assert y in Members(s) <==> y in s;
    }
    assert Members(Without(s, gone)) == Members(s) - gone;
  }

  /** `s` with `x` added at the end unless it is there already (`QGraphicsScene.addItem`). */
  function Added<T(==)>(s: seq<T>, x: T): (r: seq<T>)
    ensures x in r && |r| <= |s| + 1
    ensures forall y :: y in r ==> y in s || y == x
    ensures forall y :: y in s ==> y in r
  {
    if x in s then s else s + [x]
  }
}
