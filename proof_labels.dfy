/**
 * The label arithmetic of the proof steps (core/proof_step.py): identity
 * arrow labels, the notation for an element mapped along arrows, the kernel
 * element pattern and its "=0" marking, and the applicability tests that
 * only read labels and counts.
 */
module ProofLabels {
  import opened Wrappers
  import opened Text
  import opened Composite
  import opened ElementSelect

  // ---------------------------------------------------------------- identity labels

  /**
   * The subscript table `_create_unicode_subscript` is written with: each
   * intended subscript character's UTF-8 bytes read one by one as
   * Windows-1252 characters, with the two bytes that code page leaves
   * undefined (0x81 and 0x90) lost.
   */
  function SourceSubscript(c: char): Option<string>
  {
    match c
    case '0' => Some("\U{E2}\U{201A}\U{20AC}")
    case '1' => Some("\U{E2}\U{201A}")
    case '2' => Some("\U{E2}\U{201A}\U{201A}")
    case '3' => Some("\U{E2}\U{201A}\U{192}")
    case '4' => Some("\U{E2}\U{201A}\U{201E}")
    case '5' => Some("\U{E2}\U{201A}\U{2026}")
    case '6' => Some("\U{E2}\U{201A}\U{2020}")
    case '7' => Some("\U{E2}\U{201A}\U{2021}")
    case '8' => Some("\U{E2}\U{201A}\U{2C6}")
    case '9' => Some("\U{E2}\U{201A}\U{2030}")
    case 'a' => Some("\U{E2}\U{201A}")
    case 'e' => Some("\U{E2}\U{201A}\U{2018}")
    case 'h' => Some("\U{E2}\U{201A}\U{2022}")
    case 'i' => Some("\U{E1}\U{B5}\U{A2}")
    case 'j' => Some("\U{E2}\U{B1}\U{BC}")
    case 'k' => Some("\U{E2}\U{201A}\U{2013}")
    case 'l' => Some("\U{E2}\U{201A}\U{2014}")
    case 'm' => Some("\U{E2}\U{201A}\U{2DC}")
    case 'n' => Some("\U{E2}\U{201A}\U{2122}")
    case 'o' => Some("\U{E2}\U{201A}\U{2019}")
    case 'p' => Some("\U{E2}\U{201A}\U{161}")
    case 'r' => Some("\U{E1}\U{B5}\U{A3}")
    case 's' => Some("\U{E2}\U{201A}\U{203A}")
    case 't' => Some("\U{E2}\U{201A}\U{153}")
    case 'u' => Some("\U{E1}\U{B5}\U{A4}")
    case 'v' => Some("\U{E1}\U{B5}\U{A5}")
    case 'x' => Some("\U{E2}\U{201A}\U{201C}")
    case _ => None
  }

  /** The table as intended: the Unicode subscript form of each digit and letter. */
  function Subscript(c: char): Option<string>
  {
    match c
    case '0' => Some("\U{2080}")
    case '1' => Some("\U{2081}")
    case '2' => Some("\U{2082}")
    case '3' => Some("\U{2083}")
    case '4' => Some("\U{2084}")
    case '5' => Some("\U{2085}")
    case '6' => Some("\U{2086}")
    case '7' => Some("\U{2087}")
    case '8' => Some("\U{2088}")
    case '9' => Some("\U{2089}")
    case 'a' => Some("\U{2090}")
    case 'e' => Some("\U{2091}")
    case 'h' => Some("\U{2095}")
    case 'i' => Some("\U{1D62}")
    case 'j' => Some("\U{2C7C}")
    case 'k' => Some("\U{2096}")
    case 'l' => Some("\U{2097}")
    case 'm' => Some("\U{2098}")
    case 'n' => Some("\U{2099}")
    case 'o' => Some("\U{2092}")
    case 'p' => Some("\U{209A}")
    case 'r' => Some("\U{1D63}")
    case 's' => Some("\U{209B}")
    case 't' => Some("\U{209C}")
    case 'u' => Some("\U{1D64}")
    case 'v' => Some("\U{1D65}")
    case 'x' => Some("\U{2093}")
    case _ => None
  }

  /** The character each intended subscript form stands for. */
  function Unsubscript(c: char): Option<char>
  {
    match c
    case '\U{2080}' => Some('0')
    case '\U{2081}' => Some('1')
    case '\U{2082}' => Some('2')
    case '\U{2083}' => Some('3')
    case '\U{2084}' => Some('4')
    case '\U{2085}' => Some('5')
    case '\U{2086}' => Some('6')
    case '\U{2087}' => Some('7')
    case '\U{2088}' => Some('8')
    case '\U{2089}' => Some('9')
    case '\U{2090}' => Some('a')
    case '\U{2091}' => Some('e')
    case '\U{2095}' => Some('h')
    case '\U{1D62}' => Some('i')
    case '\U{2C7C}' => Some('j')
    case '\U{2096}' => Some('k')
    case '\U{2097}' => Some('l')
    case '\U{2098}' => Some('m')
    case '\U{2099}' => Some('n')
    case '\U{2092}' => Some('o')
    case '\U{209A}' => Some('p')
    case '\U{1D63}' => Some('r')
    case '\U{209B}' => Some('s')
    case '\U{209C}' => Some('t')
    case '\U{1D64}' => Some('u')
    case '\U{1D65}' => Some('v')
    case '\U{2093}' => Some('x')
    case _ => None
  }

  /** Every character of `text` has a subscript form in `table`. */
  predicate AllMapped(text: string, table: char -> Option<string>)
  {
    forall k :: 0 <= k < |text| ==> table(text[k]).Some?
  }

  /** The subscript forms of the characters of `text`, one after another. */
  function Subscripted(text: string, table: char -> Option<string>): string
    requires AllMapped(text, table)
  {
    if text == [] then "" else Subscripted(text[..|text| - 1], table) + table(text[|text| - 1]).value
  }

  /**
   * The label of the identity arrow on an object named `text`: "1" and the
   * name in subscript when every character has a subscript form, otherwise
   * "1_" and the name, braced when it is longer than one character.
   */
  function IdentityLabelWith(table: char -> Option<string>, text: string): string
  {
    if AllMapped(text, table) then "1" + Subscripted(text, table)
    else if |text| == 1 then "1_" + text
    else "1_{" + text + "}"
  }

  function IdentityLabel(text: string): string
  {
    IdentityLabelWith(Subscript, text)
  }

  /** As written, the identity arrows of objects "1" and "a" get the same label. */
  lemma SourceIdentityLabelsCollide()
    ensures IdentityLabelWith(SourceSubscript, "1") == IdentityLabelWith(SourceSubscript, "a")
    ensures "1" != "a"
  {
    assert AllMapped("1", SourceSubscript) && AllMapped("a", SourceSubscript);
    assert Subscripted("1", SourceSubscript) == SourceSubscript('1').value;
    assert Subscripted("a", SourceSubscript) == SourceSubscript('a').value;
  }

  /** Each intended subscript form is one character, which tells which character it stands for. */
  lemma SubscriptDistinct(c: char)
    ensures Subscript(c).Some? ==> |Subscript(c).value| == 1 && Unsubscript(Subscript(c).value[0]) == Some(c)
  {
  }

  lemma {:induction false} SubscriptedLength(text: string)
    requires AllMapped(text, Subscript)
    ensures |Subscripted(text, Subscript)| == |text|
  {
    if text != [] {
      SubscriptDistinct(text[|text| - 1]);
      SubscriptedLength(text[..|text| - 1]);
    }
  }

  /** Two names written in subscript the same way are the same name. */
  lemma {:induction false} SubscriptedInjective(s: string, t: string)
    requires AllMapped(s, Subscript) && AllMapped(t, Subscript)
    requires Subscripted(s, Subscript) == Subscripted(t, Subscript)
    ensures s == t
  {
    SubscriptedLength(s);
    SubscriptedLength(t);
    if s != [] {
      var i, j := s[..|s| - 1], t[..|t| - 1];
      var x, y := Subscript(s[|s| - 1]).value, Subscript(t[|t| - 1]).value;
      var a, b := Subscripted(i, Subscript), Subscripted(j, Subscript);
      SubscriptedLength(i);
      SubscriptedLength(j);
      SubscriptDistinct(s[|s| - 1]);
      SubscriptDistinct(t[|t| - 1]);
      assert a + x == b + y;
      assert x == (a + x)[|a|..] && y == (b + y)[|b|..];
      assert a == (a + x)[..|a|] && b == (b + y)[..|b|];
      SubscriptedInjective(i, j);
      assert s == i + [s[|s| - 1]] && t == j + [t[|t| - 1]];
    }
  }

  /** Objects with different names that can be written in subscript get different identity labels. */
  lemma IdentityLabelsDistinct(s: string, t: string)
    requires AllMapped(s, Subscript) && AllMapped(t, Subscript) && s != t
    ensures IdentityLabel(s) != IdentityLabel(t)
  {
    if IdentityLabel(s) == IdentityLabel(t) {
      assert Subscripted(s, Subscript) == IdentityLabel(s)[1..];
      assert Subscripted(t, Subscript) == IdentityLabel(t)[1..];
      SubscriptedInjective(s, t);
    }
  }

  /**
   * `_create_unicode_subscript`: builds the subscript form character by
   * character and gives up at the first character without one.
   */
  method CreateUnicodeSubscript(text: string) returns (r: string)
    ensures r == IdentityLabel(text)
  {
    var subscriptText := "";
    var canConvertAll := true;
    var i := 0;
    while i < |text|
      invariant 0 <= i <= |text|
      invariant canConvertAll ==> AllMapped(text[..i], Subscript) && subscriptText == Subscripted(text[..i], Subscript)
      invariant !canConvertAll ==> !AllMapped(text, Subscript)
      invariant !canConvertAll ==> i == |text|
    {
      var sub := Subscript(text[i]);
      if sub.Some? {
        assert text[..i + 1][..i] == text[..i];
        subscriptText := subscriptText + sub.value;
        i := i + 1;
      } else {
        canConvertAll := false;
        i := |text|;
      }
    }
    if canConvertAll {
      assert text[..i] == text;
      r := "1" + subscriptText;
    } else if |text| == 1 {
      r := "1_" + text;
    } else {
      r := "1_{" + text + "}";
    }
  }

  /**
   * The identity on an object with a one-letter name that has no subscript
   * form is labelled `1_` and the name, and it is an identity factor:
   * composing an arrow `f` after it and cancelling identities gives `f`
   * back, so the steps Identity, Compose Arrows and Cancel Identities fit
   * together.
   */
  lemma IdentityComposeCancels(f: string, name: char)
    requires f != "" && Trimmed(f) && NoSep(f) && !IsIdentity(f)
    requires Subscript(name).None? && !InSep(name) && !IsSpace(name)
    ensures IdentityLabel([name]) == "1_" + [name]
    ensures IsIdentity(IdentityLabel([name]))
    ensures Cancelled(Composed(f, IdentityLabel([name]))) == f
  {
    assert !AllMapped([name], Subscript) by {
      assert Subscript([name][0]).None?;
    }
    var id := "1_" + [name];
    var fs := [f, id];
    var text := Composed(f, id);
    assert Join(fs[1..], Sep) == id;
    assert Join(fs, Sep) == text;
    assert text[0] == f[0] && text[|text| - 1] == name;
    StripTrimmed(text);
    assert text[|f|] == SepA;
    if IdentityAt(text, 0) {
      assert |f| >= 2;
      assert RunEnd(text, 0) <= |f|;
    }
    assert Kept(fs) == [f] by {
      assert IsIdentity(fs[1]);
      assert Kept(fs[1..]) == [];
    }
    forall k | 0 <= k < |fs|
      ensures NoSep(fs[k])
    {
    }
    CancelFactors(fs);
  }

  // ---------------------------------------------------------------- mapped elements

  /** `element_name[a:b]` for `0 <= a`, `b <= |s|`: empty when the end is before the start. */
  function Slice(s: string, a: nat, b: nat): string
    requires a <= |s| && b <= |s|
  {
    if a <= b then s[a..b] else ""
  }

  /**
   * `_create_mapped_element_notation`: the element `arrowLabel` maps
   * `element` to. A zero element maps to `arrowLabel(0)=0`; an application
   * `g(x)` or `(c)(x)`, split at its last '(', gets `arrowLabel` composed in
   * front; any other element is simply applied.
   */
  function MappedElement(element: string, arrowLabel: string): string
  {
    if Contains(element, "=0") then arrowLabel + "(0)=0"
    else if '(' in element && ')' in element then
      var lp := RFind(element, '(');
      Application(arrowLabel, element[..lp], Slice(element, lp + 1, RFind(element, ')')))
    else arrowLabel + "(" + element + ")"
  }

  /** `existing` without its outer parentheses, when it starts with '(' and ends with ')'. */
  function Unwrapped(existing: string): string
  {
    if |existing| >= 2 && existing[0] == '(' && existing[|existing| - 1] == ')'
    then existing[1..|existing| - 1] else existing
  }

  /** `(arrowLabel∘inner)(base)`, with `inner` the existing composition unwrapped. */
  function Application(arrowLabel: string, existing: string, base: string): string
  {
    "(" + Composed(arrowLabel, Unwrapped(existing)) + ")(" + base + ")"
  }

  /** What an element is applied to: the text in its last parentheses, or the element itself. */
  function ArgumentOf(element: string): string
  {
    if '(' in element && ')' in element then
      Slice(element, RFind(element, '(') + 1, RFind(element, ')'))
    else element
  }

  /** A text without '=' holds no "=0". */
  lemma NoZeroMark(s: string)
    requires '=' !in s
    ensures !Contains(s, "=0")
  {
    forall i | 0 <= i <= |s| - 2
      ensures !OccursAt(s, "=0", i)
    {
      assert s[i] in s;
    }
    ContainsAt(s, "=0");
  }

  /** The last occurrence of `c` is the one at `i` when none follows it. */
  lemma RFindAt(s: string, i: int, c: char)
    requires 0 <= i < |s| && s[i] == c && c !in s[i + 1..]
    ensures RFind(s, c) == i
  {

  }

  /** The pieces of `head(arg)`. */
  lemma AppliedPieces(head: string, arg: string)
    ensures var e := head + "(" + arg + ")";
      |e| == |head| + |arg| + 2 && e[|head|] == '(' && e[|e| - 1] == ')'
      && e[..|head|] == head && e[|head| + 1..] == arg + ")" && e[|head| + 1..|e| - 1] == arg
  {
  }

  /** `head(base)` with no '(' in `base` is applied to `base`. */
  lemma ArgumentOfApplied(head: string, base: string)
    requires '(' !in base
    ensures ArgumentOf(head + "(" + base + ")") == base
  {
    var r := head + "(" + base + ")";
    AppliedPieces(head, base);
    RFindAt(r, |head|, '(');
    RFindAt(r, |r| - 1, ')');
  }

  /** `(c)(b)` is the head `(c)` applied to `b`. */
  lemma ApplicationSplit(c: string, b: string)
    ensures "(" + c + ")(" + b + ")" == ("(" + c + ")") + "(" + b + ")"
  {
  }

  /** The part between the last '(' and the last ')' holds no '('. */
  lemma ArgumentOpenFree(element: string)
    requires '(' in element && ')' in element
    ensures '(' !in Slice(element, RFind(element, '(') + 1, RFind(element, ')'))
  {
    var lp, rp := RFind(element, '('), RFind(element, ')');
    assert lp + 1 <= rp ==> Slice(element, lp + 1, rp) == element[lp + 1..][..rp - lp - 1];
  }

  /** The image of an applied element is a composed head applied to the same argument. */
  lemma MapKeepsApplied(element: string, arrowLabel: string)
    requires !Contains(element, "=0")
    requires '(' in element && ')' in element
    ensures ArgumentOf(MappedElement(element, arrowLabel)) == ArgumentOf(element)
  {
    var lp := RFind(element, '(');
    var base := Slice(element, lp + 1, RFind(element, ')'));
    ArgumentOpenFree(element);
    assert MappedElement(element, arrowLabel) == Application(arrowLabel, element[..lp], base);
    var c := Composed(arrowLabel, Unwrapped(element[..lp]));
    ApplicationSplit(c, base);
    ArgumentOfApplied("(" + c + ")", base);
  }

  /** Mapping keeps what the element is applied to: `f(x)` and `(g∘f)(x)` are both applied to `x`. */
  lemma MapKeepsArgument(element: string, arrowLabel: string)
    requires !Contains(element, "=0")
    requires '(' in element ==> ')' in element
    ensures ArgumentOf(MappedElement(element, arrowLabel)) == ArgumentOf(element)
  {
    if '(' in element {
      MapKeepsApplied(element, arrowLabel);
    } else {
      ArgumentOfApplied(arrowLabel, element);
    }
  }

  /** The characters of a slice are characters of the text. */
  lemma SliceChars(s: string, a: nat, b: nat)
    requires a <= |s| && b <= |s|
    ensures forall c :: c in Slice(s, a, b) ==> c in s
  {
    if a <= b {
      forall c | c in s[a..b]
        ensures c in s
      {
        var i :| 0 <= i < b - a && s[a..b][i] == c;
        assert s[a + i] == c;
      }
    }
  }

  /** The characters of an unwrapped composition are characters of the composition. */
  lemma UnwrappedChars(existing: string)
    ensures forall c :: c in Unwrapped(existing) ==> c in existing
  {
    if |existing| >= 2 && existing[0] == '(' && existing[|existing| - 1] == ')' {
      SliceChars(existing, 1, |existing| - 1);
    }
  }

  /** The characters of the image of an applied element. */
  lemma ApplicationChars(element: string, arrowLabel: string)
    requires '(' in element && ')' in element
    ensures var lp := RFind(element, '(');
      var r := Application(arrowLabel, element[..lp], Slice(element, lp + 1, RFind(element, ')')));
      r[0] == '(' && r[|r| - 1] == ')'
      && forall c :: c in r ==> c in element || c in arrowLabel || c in Sep || c == '(' || c == ')'
  {
    var lp := RFind(element, '(');
    var pre := element[..lp];
    var base := Slice(element, lp + 1, RFind(element, ')'));
    SliceChars(element, lp + 1, RFind(element, ')'));
    UnwrappedChars(pre);
    var u := Unwrapped(pre);
    var r := "(" + Composed(arrowLabel, u) + ")(" + base + ")";
    assert r[0] == '(' && r[|r| - 1] == ')';
    forall ch | ch in r
      ensures ch in element || ch in arrowLabel || ch in Sep || ch == '(' || ch == ')'
    {
      if ch in u {
        assert ch in pre;
      }
    }
  }

  /**
   * Mapping keeps an element well formed when the arrow's label is: the
   * image of an element of a list can stand in a list itself.
   */
  lemma MappedIsElement(element: string, arrowLabel: string)
    requires IsElement(element) && IsElement(arrowLabel)
    ensures IsElement(MappedElement(element, arrowLabel))
  {
    var r := MappedElement(element, arrowLabel);
    if Contains(element, "=0") {
      assert r[0] == arrowLabel[0] && r[|r| - 1] == '0';
    } else if '(' in element && ')' in element {
      ApplicationChars(element, arrowLabel);
      assert ',' !in Sep && ':' !in Sep;
    } else {
      assert r[0] == arrowLabel[0] && r[|r| - 1] == ')';
    }
  }

  /** An applied element `g(x)` mapped by `f` becomes `(f∘g)(x)`. */
  lemma MapApplied(g: string, x: string, f: string)
    requires '(' !in g && ')' !in g && '=' !in g
    requires '(' !in x && ')' !in x && '=' !in x
    ensures MappedElement(g + "(" + x + ")", f) == "(" + Composed(f, g) + ")(" + x + ")"
  {
    var e := g + "(" + x + ")";
    assert '=' !in e;
    NoZeroMark(e);
    AppliedPieces(g, x);
    RFindAt(e, |g|, '(');
    RFindAt(e, |e| - 1, ')');
    assert e[|g|] in e && e[|e| - 1] in e;
    assert MappedElement(e, f) == Application(f, g, x);
    assert Unwrapped(g) == g by {
      assert |g| > 0 ==> g[0] in g;
    }
  }

  /** A composed element `(c)(x)` mapped by `f` becomes `(f∘c)(x)`. */
  lemma MapComposed(c: string, x: string, f: string)
    requires '=' !in c
    requires '(' !in x && ')' !in x && '=' !in x
    ensures MappedElement("(" + c + ")(" + x + ")", f) == "(" + Composed(f, c) + ")(" + x + ")"
  {
    var existing := "(" + c + ")";
    var e := existing + "(" + x + ")";
    assert "(" + c + ")(" + x + ")" == e;
    assert '=' !in e;
    NoZeroMark(e);
    AppliedPieces(existing, x);
    RFindAt(e, |existing|, '(');
    RFindAt(e, |e| - 1, ')');
    assert e[|existing|] in e && e[|e| - 1] in e;
    assert MappedElement(e, f) == Application(f, existing, x);
    assert existing[1..|existing| - 1] == c;
    assert Unwrapped(existing) == c;
  }

  /** Mapping a plain element along `f` and then `g` gives `(g∘f)(x)`. */
  lemma MapTwice(x: string, f: string, g: string)
    requires '(' !in x && ')' !in x && '=' !in x
    requires '(' !in f && ')' !in f && '=' !in f
    ensures MappedElement(MappedElement(x, f), g) == "(" + Composed(g, f) + ")(" + x + ")"
  {
    NoZeroMark(x);
    MapApplied(f, x, g);
  }

  /** A zero element stays zero: whatever maps it, the image is `f(0)=0`. */
  lemma ZeroStaysZero(element: string, f: string)
    requires Contains(element, "=0")
    ensures Contains(MappedElement(element, f), "=0")
    ensures ArgumentOf(MappedElement(element, f)) == "0"
  {
    var r := f + "(0)=0";
    assert OccursAt(r, "=0", |r| - 2);
    ContainsAt(r, "=0");
    assert r[|f|] == '(' && r[|f| + 2] == ')';
    assert r[|f| + 1..] == "0)=0" && r[|f| + 3..] == "=0";
    RFindAt(r, |f|, '(');
    RFindAt(r, |f| + 2, ')');
    assert r[|f| + 1..|f| + 2] == "0";
  }

  // ---------------------------------------------------------------- kernel elements

  /** Where the kernel arrow's name sits in a composed application. */
  lemma KernelPieces(e: string, f: string, x: string)
    ensures "(" + Composed(e, KernelArrowName(f)) + ")(" + x + ")"
      == ("(" + e) + (Sep + "k_") + (f + ")(" + x + ")")
  {
    var k := KernelArrowName(f);
    assert k == "k_" + f;
    assert Composed(e, k) == e + (Sep + "k_") + f;
  }

  /** `_is_kernel_element_pattern`: the element composes with a kernel arrow and is an application. */
  predicate KernelPattern(element: string)
  {
    Contains(element, Sep + "k_") && '(' in element && ')' in element
  }

  /** An element marked as zero when it matches the kernel pattern. */
  function ZeroMarked(element: string): string
  {
    if KernelPattern(element) then element + "=0" else element
  }

  /** The elements of a list, each marked as zero when it matches. */
  function ZeroMarkedAll(elems: seq<string>): (r: seq<string>)
    ensures |r| == |elems|
    ensures forall k :: 0 <= k < |r| ==> r[k] == ZeroMarked(elems[k])
  {
    if elems == [] then [] else [ZeroMarked(elems[0])] + ZeroMarkedAll(elems[1..])
  }

  /**
   * The display text `KernelAtElementIsZeroProofStep.apply` writes: the
   * elements before the first ':', marked, joined by ", ", then ':' and the
   * rest of the text unchanged; a text without ':' is left as it is.
   */
  function KernelZeroText(display: string): string
  {
    if ':' in display then Join(ZeroMarkedAll(ParseElements(display)), ", ") + ":" + After(display, ':')
    else display
  }

  /** Marking keeps an element well formed: "=0" adds no separator and no white space at the end. */
  lemma ZeroMarkedElement(element: string)
    requires IsElement(element)
    ensures IsElement(ZeroMarked(element))
  {
    if KernelPattern(element) {
      var r := element + "=0";
      assert r[|r| - 1] == '0' && r[0] == element[0];
      assert forall c :: c in r ==> c in element || c == '=' || c == '0';
    }
  }

  /**
   * Reading the elements back from the new text gives the marked elements,
   * and the text after the first ':' is kept: exactly the kernel elements
   * got "=0".
   */
  lemma KernelZeroParsed(display: string)
    requires ':' in display
    ensures ParseElements(KernelZeroText(display)) == ZeroMarkedAll(ParseElements(display))
    ensures After(KernelZeroText(display), ':') == After(display, ':')
    ensures forall k :: 0 <= k < |ParseElements(display)| ==>
      (ParseElements(KernelZeroText(display))[k] == ParseElements(display)[k] + "=0" <==> KernelPattern(ParseElements(display)[k]))
  {
    var elems := ZeroMarkedAll(ParseElements(display));
    forall k | 0 <= k < |elems|
      ensures IsElement(elems[k])
    {
      ZeroMarkedElement(ParseElements(display)[k]);
    }
    ParseJoined(elems, After(display, ':'));
    var joined := Join(elems, ", ");
    JoinLacks(elems, ", ", ':');
    BeforeJoined(joined, After(display, ':'));
    forall k | 0 <= k < |elems|
      ensures elems[k] == ParseElements(display)[k] + "=0" <==> KernelPattern(ParseElements(display)[k])
    {
      var e := ParseElements(display)[k];
      if !KernelPattern(e) {
        assert |elems[k]| == |e|;
      }
    }
  }

  /** Some element before the first ':' of `display` has the kernel form. */
  predicate HasKernelElement(display: string)
  {
    exists k :: 0 <= k < |ParseElements(display)| && KernelPattern(ParseElements(display)[k])
  }

  /** A marked kernel element still has the kernel form. */
  lemma MarkedStaysKernel(element: string)
    requires KernelPattern(element)
    ensures KernelPattern(element + "=0")
  {
    ContainsAt(element, Sep + "k_");
    var i :| OccursAt(element, Sep + "k_", i);
    assert (element + "=0")[i..i + |Sep + "k_"|] == element[i..i + |Sep + "k_"|];
    assert OccursAt(element + "=0", Sep + "k_", i);
    ContainsAt(element + "=0", Sep + "k_");
  }

  /**
   * Marking kernel elements changes the text, and the result still has a
   * kernel element, so the step stays applicable and a second application
   * appends a second "=0".
   */
  lemma KernelZeroStaysApplicable(display: string)
    requires ':' in display && HasKernelElement(display)
    ensures KernelZeroText(display) != display
    ensures ':' in KernelZeroText(display) && HasKernelElement(KernelZeroText(display))
  {
    var elems := ParseElements(display);
    var k :| 0 <= k < |elems| && KernelPattern(elems[k]);
    KernelZeroParsed(display);
    var marked := ParseElements(KernelZeroText(display));
    assert marked[k] == elems[k] + "=0";
    assert |marked[k]| != |elems[k]|;
    MarkedStaysKernel(elems[k]);
    assert KernelPattern(marked[k]);
  }

  /** A kernel arrow's name, `k_` and the arrow's label, as `TakeKernelProofStep.apply` writes it. */
  function KernelArrowName(arrowText: string): string
  {
    "k_" + arrowText
  }

  /**
   * An element mapped along a kernel arrow and then along another arrow
   * matches the kernel pattern: the steps Take Kernel, Map Element twice and
   * Kernel at Element is 0 chain up.
   */
  lemma KernelChain(x: string, f: string, e: string)
    requires '(' !in x && ')' !in x && '=' !in x
    requires '(' !in f && ')' !in f && '=' !in f
    ensures KernelPattern(MappedElement(MappedElement(x, KernelArrowName(f)), e))
  {
    MapTwice(x, KernelArrowName(f), e);
    var r := "(" + Composed(e, KernelArrowName(f)) + ")(" + x + ")";
    KernelPieces(e, f, x);
    ContainsMiddle("(" + e, Sep + "k_", f + ")(" + x + ")");
    assert r[0] in r && r[|r| - 1] in r;
  }
}
