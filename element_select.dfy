/**
 * Element lists written before the first ':' of an object's label
 * ("x, y:A"), and the dialog that lets the user pick one of them.
 */
module ElementSelect {
  import opened Wrappers
  import opened Text

  /** A well-formed element: non-empty, stripped, and free of the list and label separators. */
  predicate IsElement(e: string)
  {
    e != "" && Trimmed(e) && ',' !in e && ':' !in e
  }

  /** `[f.strip() for f in fields if f.strip()]`. */
  function Cleaned(fields: seq<string>): (elems: seq<string>)
    ensures |elems| <= |fields|
  {
    if fields == [] then []
    else
      var s := Strip(fields[0]);
      if s == "" then Cleaned(fields[1..]) else [s] + Cleaned(fields[1..])
  }

  /** Stripping never introduces a character. */
  lemma StripKeepsOut(s: string, c: char)
    requires c !in s
    ensures c !in Strip(s)
  {
    StripSlice(s);
  }

  /** Cleaned pieces are non-empty, trimmed, and hold no character the fields lack. */
  lemma {:induction false} CleanedKeepsOut(fields: seq<string>, c: char)
    requires forall k :: 0 <= k < |fields| ==> c !in fields[k]
    ensures forall k :: 0 <= k < |Cleaned(fields)| ==>
      Cleaned(fields)[k] != "" && Trimmed(Cleaned(fields)[k]) && c !in Cleaned(fields)[k]
  {
    if fields != [] {
      StripKeepsOut(fields[0], c);
      StripSlice(fields[0]);
      CleanedKeepsOut(fields[1..], c);
    }
  }

  /**
   * `_parse_elements`: the text before the first ':' (all of it when there is
   * none), split at ',', each piece stripped, blank pieces dropped.
   */
  function ParseElements(text: string): (elems: seq<string>)
    ensures forall k :: 0 <= k < |elems| ==> IsElement(elems[k])
  {
    var fields := Split(Before(text, ':'), ',');
    SplitJoinsBack(Before(text, ':'), ',');
    forall k | 0 <= k < |fields|
      ensures ':' !in fields[k]
    {
      JoinHasPart(fields, [','], k, ':');
    }
    CleanedKeepsOut(fields, ',');
    CleanedKeepsOut(fields, ':');
    Cleaned(fields)
  }

  /** A character missing from a join is missing from every joined piece. */
  lemma {:induction false} JoinHasPart(parts: seq<string>, sep: string, k: int, c: char)
    requires 0 <= k < |parts|
    requires c !in Join(parts, sep)
    ensures c !in parts[k]
    decreases |parts|
  {
    if |parts| > 1 {
      assert Join(parts, sep) == parts[0] + (sep + Join(parts[1..], sep));
      if k > 0 {
        JoinHasPart(parts[1..], sep, k - 1, c);
      }
    }
  }

  /** No separator survives a join whose pieces and separator lack it. */
  lemma {:induction false} JoinLacks(parts: seq<string>, sep: string, c: char)
    requires c !in sep
    requires forall k :: 0 <= k < |parts| ==> c !in parts[k]
    ensures c !in Join(parts, sep)
    decreases |parts|
  {
    if |parts| > 1 {
      JoinLacks(parts[1..], sep, c);
    }
  }

  /** The comma-separated fields of a list joined with ", ": every field after the first starts with a space. */
  lemma {:induction false} SplitCommaSpace(elems: seq<string>)
    requires |elems| > 0
    requires forall k :: 0 <= k < |elems| ==> ',' !in elems[k]
    ensures |Split(Join(elems, ", "), ',')| == |elems|
    ensures Split(Join(elems, ", "), ',')[0] == elems[0]
    ensures forall k :: 1 <= k < |elems| ==> Split(Join(elems, ", "), ',')[k] == " " + elems[k]
    decreases |elems|
  {
    if |elems| == 1 {
      SplitPrefix(elems[0], "", ',');
      assert elems[0] + "" == elems[0];
    } else {
      var rest := Join(elems[1..], ", ");
      SplitCommaSpace(elems[1..]);
      assert Join(elems, ", ") == elems[0] + ([','] + (" " + rest));
      SplitPrefix(elems[0], [','] + (" " + rest), ',');
      assert ([','] + (" " + rest))[1..] == " " + rest;
      SplitPrefix(" ", rest, ',');
    }
  }

  /** Cleaning fields that are elements, the later ones behind one space, gives the elements back. */
  lemma {:induction false} CleanedSpaced(elems: seq<string>, fields: seq<string>, from: nat)
    requires from <= |elems| == |fields|
    requires forall k :: 0 <= k < |elems| ==> IsElement(elems[k])
    requires forall k :: from <= k < |fields| ==> fields[k] == " " + elems[k]
    requires forall k :: 0 <= k < from ==> fields[k] == elems[k]
    ensures Cleaned(fields) == elems
    decreases |elems|
  {
    if elems != [] {
      if from > 0 {
        CleanedSpaced(elems[1..], fields[1..], from - 1);
      } else {
        StripLeadingSpace(" ", elems[0]);
        assert IsSpace(' ');
        CleanedSpaced(elems[1..], fields[1..], 0);
      }
    }
  }

  /**
   * Writing elements back as "e1, e2, ...:base" and parsing the result gives
   * the same elements: the list format round-trips.
   */
  lemma ParseJoined(elems: seq<string>, base: string)
    requires forall k :: 0 <= k < |elems| ==> IsElement(elems[k])
    ensures ParseElements(Join(elems, ", ") + ":" + base) == elems
  {
    var joined := Join(elems, ", ");
    var text := joined + ":" + base;
    JoinLacks(elems, ", ", ':');
    BeforeJoined(joined, base);
    assert ParseElements(text) == Cleaned(Split(joined, ','));
    CleanedJoined(elems);
  }

  /** The comma-separated fields of a joined list clean up to the list. */
  lemma CleanedJoined(elems: seq<string>)
    requires forall k :: 0 <= k < |elems| ==> IsElement(elems[k])
    ensures Cleaned(Split(Join(elems, ", "), ',')) == elems
  {
    if elems == [] {
      assert Split("", ',') == [""];
    } else {
      SplitCommaSpace(elems);
      CleanedSpaced(elems, Split(Join(elems, ", "), ','), 1);
    }
  }

  lemma BeforeJoined(joined: string, base: string)
    requires ':' !in joined
    ensures Before(joined + ":" + base, ':') == joined
  {
    var text := joined + ":" + base;
    FindAfterPrefix(joined, ':', base);
    assert text == joined + ([':'] + base);
    assert text[..|joined|] == joined;
  }

  /** The selection dialog: the parsed elements, and the one chosen, if any. */
  class ElementSelectDialog {
    var elements: seq<string>
    var selectedElement: Option<string>
    var accepted: bool

    /** An element is selected only by a click, which also accepts the dialog. */
    predicate Valid()
      reads this
    {
      selectedElement.Some? ==> accepted
    }

    constructor(elementsText: string)
      ensures elements == ParseElements(elementsText)
      ensures selectedElement == None && !accepted
      ensures Valid()
    {
      elements := ParseElements(elementsText);
      selectedElement := None;
      accepted := false;
    }

    /** A click on an element's button: remember it and close the dialog as accepted. */
    method SelectElement(element: string)
      modifies this
      ensures selectedElement == Some(element) && accepted
      ensures elements == old(elements)
      ensures Valid()
    {
      selectedElement := Some(element);
      accepted := true;
    }

    /** `get_selected_element`: the element chosen, present only once the dialog was accepted. */
    method GetSelectedElement() returns (element: Option<string>)
      requires Valid()
      ensures element == selectedElement
      ensures element.Some? ==> accepted
    {
      element := selectedElement;
    }
  }
}
