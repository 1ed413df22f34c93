/**
 * Composite arrow labels and the cancellation of identity factors in them
 * (`CancelIdentityProofStep` in core/proof_step.py).
 *
 * A composite label is its factors written one after another with the
 * composition symbol between them. The source spells that symbol as the
 * three characters U+00E2 U+02C6 U+02DC (the UTF-8 bytes of the ring
 * operator read as Windows-1252), and its patterns `[^...]` refuse any of
 * the three characters; the model keeps both as written.
 */
module Composite {
  import opened Text

  const SepA: char := '\U{E2}'
  const SepB: char := '\U{2C6}'
  const SepC: char := '\U{2DC}'

  /** The composition symbol. */
  const Sep: string := [SepA, SepB, SepC]

  /** A character the class `[^...]` of the cancellation patterns refuses. */
  predicate InSep(c: char)
  {
    c == SepA || c == SepB || c == SepC
  }

  /** The composition symbol starts at index `i` of `s`. */
  predicate SepAt(s: string, i: int)
  {
    0 <= i && i + 3 <= |s| && s[i] == SepA && s[i + 1] == SepB && s[i + 2] == SepC
  }

  /** The label of the composite `second` after `first`. */
  function Composed(second: string, first: string): string
  {
    second + Sep + first
  }

  /** The symbol stands between the two factors of a composite. */
  lemma ComposedSep(second: string, first: string)
    ensures SepAt(Composed(second, first), |second|)
    ensures Composed(second, first)[..|second|] == second
    ensures Composed(second, first)[|second| + 3..] == first
  {
  }

  // ---------------------------------------------------------------- the pattern pieces

  /** The greedy `[^...]*` at the start of `s`: the longest prefix free of the symbol's characters. */
  function Run(s: string): (n: nat)
    ensures n <= |s|
    ensures forall k :: 0 <= k < n ==> !InSep(s[k])
    ensures n < |s| ==> InSep(s[n])
  {
    if s == [] || InSep(s[0]) then 0 else 1 + Run(s[1..])
  }

  /** `1_` followed by at least one character the class accepts starts at index `p`. */
  predicate IdentityAt(s: string, p: int)
  {
    0 <= p && p + 2 < |s| && s[p] == '1' && s[p + 1] == '_' && !InSep(s[p + 2])
  }

  /** Where the greedy `1_[^...]+` starting at `p` ends. */
  function RunEnd(s: string, p: int): (e: int)
    requires IdentityAt(s, p)
    ensures p + 3 <= e <= |s|
    ensures forall k :: p + 2 <= k < e ==> !InSep(s[k])
    ensures e < |s| ==> InSep(s[e])
  {
    var n := Run(s[p + 2..]);
    assert forall k :: p + 2 <= k < p + 2 + n ==> s[k] == s[p + 2..][k - (p + 2)];
    p + 2 + n
  }

  /** The pieces read the same in a suffix of `s`, shifted by its offset. */
  lemma Shift(s: string, k: nat, q: nat)
    requires k <= |s|
    ensures IdentityAt(s[k..], q) <==> IdentityAt(s, q + k)
    ensures IdentityAt(s, q + k) ==> RunEnd(s[k..], q) == RunEnd(s, q + k) - k
    ensures SepAt(s[k..], q) <==> SepAt(s, q + k)
  {
    if IdentityAt(s, q + k) {
      assert s[k..][q + 2..] == s[q + k + 2..];
    }
  }

  /**
   * An identity factor starts at `p`: `1_` and a run of accepted characters
   * that makes up a whole factor, with the symbol or an end of the label on
   * either side.
   */
  predicate IdentityFactor(s: string, p: int)
  {
    IdentityAt(s, p) && (p == 0 || SepAt(s, p - 3))
    && (RunEnd(s, p) == |s| || SepAt(s, RunEnd(s, p)))
  }

  /** No factor of `s` is an identity. */
  predicate IdentityFree(s: string)
  {
    forall p :: 0 <= p < |s| ==> !IdentityFactor(s, p)
  }

  // ---------------------------------------------------------------- the four substitutions

  /** Length of the match of the middle pattern (symbol, identity, symbol) at the start of `s`, or 0. */
  function MidMatch(s: string): nat
  {
    if SepAt(s, 0) && IdentityAt(s, 3) && SepAt(s, RunEnd(s, 3)) then RunEnd(s, 3) + 3 else 0
  }

  /** Replaces every match of the middle pattern, scanning left to right, by one symbol. */
  function SubMiddle(s: string): string
    decreases |s|
  {
    if s == [] then []
    else
      var m := MidMatch(s);
      if m > 0 then Sep + SubMiddle(s[m..]) else [s[0]] + SubMiddle(s[1..])
  }

  /** The leading pattern: an identity and the symbol at the very start. */
  predicate FirstMatch(s: string)
  {
    IdentityAt(s, 0) && SepAt(s, RunEnd(s, 0))
  }

  /** Drops a leading identity together with the symbol after it. */
  function DropFirst(s: string): string
  {
    if FirstMatch(s) then s[RunEnd(s, 0) + 3..] else s
  }

  /** The trailing pattern matches at `p`: the symbol, then an identity that runs to the end. */
  predicate EndMatch(s: string, p: int)
  {
    SepAt(s, p) && IdentityAt(s, p + 3) && RunEnd(s, p + 3) == |s|
  }

  /** Drops a trailing identity together with the symbol before it (the first position that matches). */
  function DropLast(s: string): string
    decreases |s|
  {
    if |s| < 6 then s
    else if EndMatch(s, 0) then []
    else [s[0]] + DropLast(s[1..])
  }

  /** The whole label is one identity. */
  predicate Pure(s: string)
  {
    IdentityAt(s, 0) && RunEnd(s, 0) == |s|
  }

  /** Drops a label that is one identity. */
  function DropWhole(s: string): string
  {
    if Pure(s) then [] else s
  }

  /** One round of the loop in `_cancel_identities`: the four substitutions in their order. */
  function CancelStep(s: string): string
  {
    DropWhole(DropLast(DropFirst(SubMiddle(s))))
  }

  // ---------------------------------------------------------------- a round shortens or fixes

  /** No position of `s` starts a match of the middle pattern. */
  predicate NoMidMatch(s: string)
  {
    forall p :: 0 <= p < |s| ==> MidMatch(s[p..]) == 0
  }

  lemma {:induction false} SubMiddleShrinks(s: string)
    ensures |SubMiddle(s)| <= |s|
    ensures SubMiddle(s) != s ==> |SubMiddle(s)| < |s|
    ensures SubMiddle(s) == s <==> NoMidMatch(s)
    decreases |s|
  {
    if s != [] {
      var m := MidMatch(s);
      if m > 0 {
        SubMiddleShrinks(s[m..]);
        assert |SubMiddle(s)| < |s|;
        assert !NoMidMatch(s) by {
          assert s[0..] == s;
        }
      } else {
        SubMiddleShrinks(s[1..]);
        if NoMidMatch(s[1..]) {
          forall p | 0 <= p < |s|
            ensures MidMatch(s[p..]) == 0
          {
            if p == 0 {
              assert s[0..] == s;
            } else {
              assert s[p..] == s[1..][p - 1..];
            }
          }
        }
        if NoMidMatch(s) {
          forall p | 0 <= p < |s| - 1
            ensures MidMatch(s[1..][p..]) == 0
          {
            assert s[1..][p..] == s[p + 1..];
          }
        }
      }
    }
  }

  lemma DropFirstShrinks(s: string)
    ensures |DropFirst(s)| <= |s|
    ensures DropFirst(s) != s ==> |DropFirst(s)| < |s|
    ensures DropFirst(s) == s <==> !FirstMatch(s)
  {
  }

  /** No position of `s` starts a match of the trailing pattern. */
  predicate NoEndMatch(s: string)
  {
    forall p :: 0 <= p < |s| ==> !EndMatch(s, p)
  }

  lemma {:induction false} DropLastShrinks(s: string)
    ensures |DropLast(s)| <= |s|
    ensures DropLast(s) != s ==> |DropLast(s)| < |s|
    ensures DropLast(s) == s <==> NoEndMatch(s)
    decreases |s|
  {
    if |s| >= 6 && !EndMatch(s, 0) {
      DropLastShrinks(s[1..]);
      if NoEndMatch(s[1..]) {
        forall p | 0 <= p < |s|
          ensures !EndMatch(s, p)
        {
          if p > 0 {
            Shift(s, 1, p - 1);
            Shift(s, 1, p + 2);
            assert !EndMatch(s[1..], p - 1);
          }
        }
      }
      if NoEndMatch(s) {
        forall p | 0 <= p < |s| - 1
          ensures !EndMatch(s[1..], p)
        {
          Shift(s, 1, p);
          Shift(s, 1, p + 3);
          assert !EndMatch(s, p + 1);
        }
      }
    }
  }

  lemma StepShrinks(s: string)
    ensures |CancelStep(s)| <= |s|
    ensures CancelStep(s) != s ==> |CancelStep(s)| < |s|
  {
    var a := SubMiddle(s);
    var b := DropFirst(a);
    var c := DropLast(b);
    SubMiddleShrinks(s);
    DropFirstShrinks(a);
    DropLastShrinks(b);
  }

  /** Each identity factor is seen by one of the four patterns. */
  lemma FactorMatched(s: string, p: nat)
    requires IdentityFactor(s, p)
    ensures p == 0 ==> FirstMatch(s) || Pure(s)
    ensures p != 0 ==> p >= 3 && (EndMatch(s, p - 3) || MidMatch(s[p - 3..]) > 0)
  {
    if p != 0 && RunEnd(s, p) != |s| {
      MidMatchAround(s, p);
    }
  }

  /** An identity between two symbols inside the label is a match of the middle pattern. */
  lemma MidMatchAround(s: string, p: nat)
    requires 3 <= p && SepAt(s, p - 3) && IdentityAt(s, p)
    requires RunEnd(s, p) < |s| && SepAt(s, RunEnd(s, p))
    ensures MidMatch(s[p - 3..]) > 0
  {
    var t := s[p - 3..];
    Shift(s, p - 3, 0);
    Shift(s, p - 3, 3);
    assert IdentityAt(t, 3) && RunEnd(t, 3) == RunEnd(s, p) - (p - 3);
    Shift(s, p - 3, RunEnd(s, p) - (p - 3));
  }

  /** Each match of the middle pattern surrounds an identity factor. */
  lemma MidMatchFactor(s: string, p: nat)
    requires p < |s| && MidMatch(s[p..]) > 0
    ensures IdentityFactor(s, p + 3)
  {
    Shift(s, p, 0);
    Shift(s, p, 3);
    Shift(s, p, RunEnd(s[p..], 3));
  }

  /** A round that changes nothing leaves no identity factor. */
  lemma FixedFree(s: string)
    requires CancelStep(s) == s
    ensures IdentityFree(s)
  {
    var a := SubMiddle(s);
    var b := DropFirst(a);
    SubMiddleShrinks(s);
    DropFirstShrinks(a);
    DropLastShrinks(b);
    assert NoMidMatch(s) && !FirstMatch(s) && NoEndMatch(s) && !Pure(s);
    forall p | 0 <= p < |s|
      ensures !IdentityFactor(s, p)
    {
      if IdentityFactor(s, p) {
        FactorMatched(s, p);
      }
    }
  }

  /** A label without identity factors is left unchanged by a round. */
  lemma FreeFixed(s: string)
    requires IdentityFree(s)
    ensures CancelStep(s) == s
  {
    SubMiddleShrinks(s);
    if !NoMidMatch(s) {
      var p :| 0 <= p < |s| && MidMatch(s[p..]) != 0;
      MidMatchFactor(s, p);
    }
    DropFirstShrinks(s);
    assert !IdentityFactor(s, 0) by {
      if |s| > 0 {
        assert !IdentityFactor(s, 0);
      }
    }
    DropLastShrinks(s);
    if !NoEndMatch(s) {
      var p :| 0 <= p < |s| && EndMatch(s, p);
      assert IdentityFactor(s, p + 3);
    }
  }

  /** A round leaves a label unchanged exactly when none of its factors is an identity. */
  lemma StepFixed(s: string)
    ensures CancelStep(s) == s <==> IdentityFree(s)
  {
    if CancelStep(s) == s {
      FixedFree(s);
    }
    if IdentityFree(s) {
      FreeFixed(s);
    }
  }

  // ---------------------------------------------------------------- the whole cancellation

  /** Rounds repeated until one changes nothing. */
  function Fixpoint(s: string): (r: string)
    decreases |s|
  {
    var t := CancelStep(s);
    if t == s then s
    else
      StepShrinks(s);
      Fixpoint(t)
  }

  /** The repeated rounds end in a label without identity factors. */
  lemma {:induction false} FixpointFree(s: string)
    ensures IdentityFree(Fixpoint(s))
    ensures Fixpoint(s) == s <==> IdentityFree(s)
    ensures |Fixpoint(s)| <= |s|
    decreases |s|
  {
    StepFixed(s);
    StepShrinks(s);
    if CancelStep(s) != s {
      FixpointFree(CancelStep(s));
    }
  }

  // ---------------------------------------------------------------- what remains: the non-identity factors

  /** `s.split` at the composition symbol: the factors of a label, read off character by character. */
  function Factors(s: string): (fs: seq<string>)
    ensures |fs| > 0
    decreases |s|
  {
    if s == [] then [""]
    else if SepAt(s, 0) then [""] + Factors(s[3..])
    else
      var rest := Factors(s[1..]);
      [[s[0]] + rest[0]] + rest[1..]
  }

  /** A whole factor that is an identity: `1_` and at least one character the class accepts. */
  predicate IsIdentity(f: string)
  {
    |f| >= 3 && f[0] == '1' && f[1] == '_' && forall k :: 2 <= k < |f| ==> !InSep(f[k])
  }

  /** The factors that are not identities, in order. */
  function Kept(fs: seq<string>): (r: seq<string>)
    ensures forall k :: 0 <= k < |r| ==> !IsIdentity(r[k])
  {
    if fs == [] then []
    else if IsIdentity(fs[0]) then Kept(fs[1..])
    else [fs[0]] + Kept(fs[1..])
  }

  /** The label with its identity factors removed: the remaining factors joined by the symbol. */
  function WithoutIdentities(s: string): string
  {
    Join(Kept(Factors(s)), Sep)
  }

  /** The symbol does not occur in `u`. */
  predicate NoSep(u: string)
  {
    forall i :: 0 <= i < |u| ==> !SepAt(u, i)
  }

  lemma {:induction false} KeptAppend(xs: seq<string>, ys: seq<string>)
    ensures Kept(xs + ys) == Kept(xs) + Kept(ys)
    decreases |xs|
  {
    if xs != [] {
      assert (xs + ys)[0] == xs[0];
      assert (xs + ys)[1..] == xs[1..] + ys;
      KeptAppend(xs[1..], ys);
    } else {
      assert xs + ys == ys;
    }
  }

  /** A label without the symbol is one factor. */
  lemma {:induction false} FactorsNoSep(u: string)
    requires NoSep(u)
    ensures Factors(u) == [u]
    decreases |u|
  {
    if u != [] {
      assert NoSep(u[1..]) by {
        forall i | 0 <= i < |u| - 1
          ensures !SepAt(u[1..], i)
        {
          Shift(u, 1, i);
          assert !SepAt(u, i + 1);
        }
      }
      FactorsNoSep(u[1..]);
      assert [u[0]] + u[1..] == u;
    }
  }

  /** Splitting at a symbol splits the factor list there. */
  lemma {:induction false} FactorsConcat(u: string, x: string)
    ensures Factors(u + Sep + x) == Factors(u) + Factors(x)
    decreases |u|
  {
    var s := u + Sep + x;
    if u == [] {
      assert s == Sep + x && SepAt(s, 0) && s[3..] == x;
    } else if SepAt(u, 0) {
      FactorsConcat(u[3..], x);
      FactorsConcatSep(u, x);
    } else {
      FactorsConcat(u[1..], x);
      FactorsConcatChar(u, x);
    }
  }

  /** `FactorsConcat` for a text that starts with the symbol, from the rest. */
  lemma FactorsConcatSep(u: string, x: string)
    requires SepAt(u, 0)
    requires Factors(u[3..] + Sep + x) == Factors(u[3..]) + Factors(x)
    ensures Factors(u + Sep + x) == Factors(u) + Factors(x)
  {
    var s := u + Sep + x;
    assert SepAt(s, 0);
    assert s[3..] == u[3..] + Sep + x;
  }

  /** `FactorsConcat` for a text that starts with an ordinary character, from the rest. */
  lemma FactorsConcatChar(u: string, x: string)
    requires u != [] && !SepAt(u, 0)
    requires Factors(u[1..] + Sep + x) == Factors(u[1..]) + Factors(x)
    ensures Factors(u + Sep + x) == Factors(u) + Factors(x)
  {
    var s := u + Sep + x;
    assert !SepAt(s, 0) by {
      if |u| < 3 {
        assert s[|u|] == SepA;
      }
    }
    assert s[1..] == u[1..] + Sep + x;
  }

  /** Joining the factors back with the symbol gives the label. */
  lemma {:induction false} JoinFactors(s: string)
    ensures Join(Factors(s), Sep) == s
    decreases |s|
  {
    if s != [] {
      if SepAt(s, 0) {
        JoinFactors(s[3..]);
        assert s == Sep + s[3..];
      } else {
        JoinFactors(s[1..]);
        JoinCons(s[0], Factors(s[1..]), Sep);
        assert s == [s[0]] + s[1..];
      }
    }
  }

  /** A character in front of the first factor comes out in front of the joined text. */
  lemma JoinCons(c: char, rest: seq<string>, sep: string)
    requires |rest| > 0
    ensures Join([[c] + rest[0]] + rest[1..], sep) == [c] + Join(rest, sep)
  {
    var parts := [[c] + rest[0]] + rest[1..];
    assert |parts| == |rest| && parts[0] == [c] + rest[0];
    if |rest| > 1 {
      assert parts[1..] == rest[1..];
      var j := Join(rest[1..], sep);
      assert Join(parts, sep) == ([c] + rest[0]) + sep + j;
      assert Join(rest, sep) == rest[0] + sep + j;
      assert ([c] + rest[0]) + sep + j == [c] + (rest[0] + sep + j);
    }
  }


  /** The first index where the symbol starts, at or after `i`, or `|s|`. */
  function FirstSep(s: string, i: nat): (p: nat)
    requires i <= |s|
    ensures i <= p <= |s|
    ensures forall j :: i <= j < p ==> !SepAt(s, j)
    ensures p < |s| ==> SepAt(s, p)
    decreases |s| - i
  {
    if i == |s| || SepAt(s, i) then i else FirstSep(s, i + 1)
  }

  /** An identity factor removed from the middle of a label. */
  lemma RemoveMiddle(u: string, f: string, r: string)
    requires IsIdentity(f)
    ensures Kept(Factors(u + (Sep + f + Sep + r))) == Kept(Factors(u + Sep + r))
  {
    assert u + (Sep + f + Sep + r) == u + Sep + (f + Sep + r);
    FactorsConcat(u, f + Sep + r);
    FactorsConcat(f, r);
    FactorsNoSep(f);
    FactorsConcat(u, r);
    KeptAppend(Factors(u), [f] + Factors(r));
    KeptAppend(Factors(u), Factors(r));
  }

  /** A match of the middle pattern is the symbol, an identity factor and the symbol. */
  lemma MidMatchParts(s: string)
    requires MidMatch(s) > 0
    ensures 9 <= MidMatch(s) <= |s|
    ensures IsIdentity(s[3..MidMatch(s) - 3])
    ensures s == Sep + s[3..MidMatch(s) - 3] + Sep + s[MidMatch(s)..]
  {
    var m := MidMatch(s);
    assert s == s[..3] + s[3..m - 3] + s[m - 3..m] + s[m..];
  }

  /** The middle substitution removes identity factors and nothing else. */
  lemma {:induction false} SubMiddleKept(u: string, s: string)
    ensures Kept(Factors(u + SubMiddle(s))) == Kept(Factors(u + s))
    decreases |s|
  {
    if s != [] {
      var m := MidMatch(s);
      if m > 0 {
        SubMiddleKept(u + Sep, s[m..]);
        MatchRemoved(u, s);
      } else {
        SubMiddleKept(u + [s[0]], s[1..]);
        CharCopied(u, s);
      }
    }
  }

  /** The step of `SubMiddleKept` where the scan copies one character. */
  lemma CharCopied(u: string, s: string)
    requires s != [] && MidMatch(s) == 0
    requires Kept(Factors(u + [s[0]] + SubMiddle(s[1..]))) == Kept(Factors(u + [s[0]] + s[1..]))
    ensures Kept(Factors(u + SubMiddle(s))) == Kept(Factors(u + s))
  {
    SubMiddleCopies(s);
    ConsAssoc(u, s[0], SubMiddle(s[1..]));
    ConsAssoc(u, s[0], s[1..]);
    assert [s[0]] + s[1..] == s;
  }

  /** Where the middle pattern does not match, the scan copies the first character. */
  lemma SubMiddleCopies(s: string)
    requires s != [] && MidMatch(s) == 0
    ensures SubMiddle(s) == [s[0]] + SubMiddle(s[1..])
  {
  }

  lemma ConsAssoc(u: string, c: char, x: string)
    ensures u + ([c] + x) == u + [c] + x
  {
  }

  /** The step of `SubMiddleKept` where the scan meets a match. */
  lemma MatchRemoved(u: string, s: string)
    requires MidMatch(s) > 0
    requires Kept(Factors(u + Sep + SubMiddle(s[MidMatch(s)..]))) == Kept(Factors(u + Sep + s[MidMatch(s)..]))
    ensures Kept(Factors(u + SubMiddle(s))) == Kept(Factors(u + s))
  {
    var m := MidMatch(s);
    var f, r := s[3..m - 3], s[m..];
    MidMatchParts(s);
    RemoveMiddle(u, f, r);
    assert u + SubMiddle(s) == u + Sep + SubMiddle(r);
  }

  lemma DropFirstKept(s: string)
    ensures Kept(Factors(DropFirst(s))) == Kept(Factors(s))
  {
    if FirstMatch(s) {
      var e := RunEnd(s, 0);
      var f := s[..e];
      assert IsIdentity(f);
      assert s == f + Sep + s[e + 3..];
      FactorsConcat(f, s[e + 3..]);
      FactorsNoSep(f);
      KeptAppend([f], Factors(s[e + 3..]));
    }
  }

  /** Where the trailing substitution cuts the label, when it does. */
  lemma {:induction false} DropLastCut(s: string) returns (p: int)
    ensures DropLast(s) == s || (EndMatch(s, p) && DropLast(s) == s[..p])
    decreases |s|
  {
    p := 0;
    if |s| >= 6 && !EndMatch(s, 0) {
      var q := DropLastCut(s[1..]);
      if DropLast(s[1..]) != s[1..] {
        p := q + 1;
        Shift(s, 1, q);
        Shift(s, 1, q + 3);
        assert s[..p] == [s[0]] + s[1..][..q];
      } else {
        assert [s[0]] + s[1..] == s;
      }
    }
  }

  lemma DropLastKept(s: string)
    ensures Kept(Factors(DropLast(s))) == Kept(Factors(s))
  {
    var p := DropLastCut(s);
    if DropLast(s) != s {
      var f := s[p + 3..];
      assert IsIdentity(f);
      assert s == s[..p] + Sep + f;
      FactorsConcat(s[..p], f);
      FactorsNoSep(f);
      KeptAppend(Factors(s[..p]), [f]);
    }
  }

  /** A round removes identity factors only. */
  lemma StepKept(s: string)
    ensures WithoutIdentities(CancelStep(s)) == WithoutIdentities(s)
  {
    var a := SubMiddle(s);
    var b := DropFirst(a);
    var c := DropLast(b);
    SubMiddleKept([], s);
    assert [] + a == a && [] + s == s;
    DropFirstKept(a);
    DropLastKept(b);
    if Pure(c) {
      assert IsIdentity(c);
      FactorsNoSep(c);
    }
  }

  /** An identity factor of the text after a symbol is one of the whole label. */
  lemma FactorShift(s: string, k: nat, q: nat)
    requires 3 <= k <= |s| && SepAt(s, k - 3)
    ensures IdentityFactor(s[k..], q) ==> IdentityFactor(s, q + k)
  {
    Shift(s, k, q);
    if q >= 3 {
      Shift(s, k, q - 3);
    }
    if IdentityAt(s[k..], q) {
      Shift(s, k, RunEnd(s[k..], q));
    }
  }

  /** A label without identity factors keeps every factor. */
  lemma {:induction false} FreeKeepsAll(s: string)
    requires IdentityFree(s)
    ensures Kept(Factors(s)) == Factors(s)
    decreases |s|
  {
    var p := FirstSep(s, 0);
    assert !IdentityFactor(s, 0);
    if p == |s| {
      FactorsNoSep(s);
    } else {
      var u, x := s[..p], s[p + 3..];
      assert s == u + Sep + x;
      forall i | 0 <= i < |u|
        ensures !SepAt(u, i)
      {
        assert !SepAt(s, i);
      }
      FactorsNoSep(u);
      FactorsConcat(u, x);
      assert !IsIdentity(u) by {
        assert IsIdentity(u) ==> RunEnd(s, 0) == p;
      }
      forall q | 0 <= q < |x|
        ensures !IdentityFactor(x, q)
      {
        FactorShift(s, p + 3, q);
      }
      FreeKeepsAll(x);
      KeptAppend([u], Factors(x));
    }
  }

  /** A label without identity factors is its own normal form. */
  lemma FreeWithout(s: string)
    requires IdentityFree(s)
    ensures WithoutIdentities(s) == s
  {
    FreeKeepsAll(s);
    JoinFactors(s);
  }

  /** The repeated rounds remove exactly the identity factors. */
  lemma {:induction false} FixpointWithout(s: string)
    ensures Fixpoint(s) == WithoutIdentities(s)
    decreases |s|
  {
    StepFixed(s);
    if CancelStep(s) == s {
      FreeWithout(s);
    } else {
      StepShrinks(s);
      StepKept(s);
      FixpointWithout(CancelStep(s));
    }
  }

  /** `_cancel_identities`: a label that is one identity once stripped is kept; otherwise identities are cancelled. */
  function Cancelled(text: string): string
  {
    if Pure(Strip(text)) then text else Fixpoint(text)
  }

  /** The cancelled label keeps a lone identity and otherwise has no identity factor left. */
  lemma CancelledFree(text: string)
    ensures Pure(Strip(text)) ==> Cancelled(text) == text
    ensures !Pure(Strip(text)) ==> Cancelled(text) == WithoutIdentities(text)
    ensures !Pure(Strip(text)) ==> IdentityFree(Cancelled(text)) && |Cancelled(text)| <= |text|
    ensures !Pure(Strip(text)) ==> (Cancelled(text) == text <==> IdentityFree(text))
  {
    FixpointFree(text);
    FixpointWithout(text);
  }

  /** Cancelling twice is cancelling once: a second Cancel Identities changes nothing. */
  lemma CancelledIdempotent(text: string)
    ensures Cancelled(Cancelled(text)) == Cancelled(text)
  {
    if !Pure(Strip(text)) {
      var r := Cancelled(text);
      CancelledFree(text);
      StepFixed(r);
    }
  }

  /** `_cancel_identities` as written: the substitutions repeated until a round changes nothing. */
  method CancelIdentities(text: string) returns (r: string)
    ensures r == Cancelled(text)
    ensures Pure(Strip(text)) ==> r == text
    ensures !Pure(Strip(text)) ==> r == WithoutIdentities(text) && IdentityFree(r)
  {
    if Pure(Strip(text)) {
      return text;
    }
    r := text;
    while true
      invariant Fixpoint(r) == Fixpoint(text)
      decreases |r|
    {
      var original := r;
      r := SubMiddle(r);
      r := DropFirst(r);
      r := DropLast(r);
      r := DropWhole(r);
      if r == original {
        break;
      }
      StepShrinks(original);
    }
    FixpointFree(r);
    FixpointWithout(text);
  }

  /** Factors without the symbol, joined by it, split back into themselves. */
  lemma {:induction false} FactorsJoin(fs: seq<string>)
    requires |fs| > 0
    requires forall k :: 0 <= k < |fs| ==> NoSep(fs[k])
    ensures Factors(Join(fs, Sep)) == fs
    decreases |fs|
  {
    FactorsNoSep(fs[0]);
    if |fs| > 1 {
      FactorsJoin(fs[1..]);
      FactorsConcat(fs[0], Join(fs[1..], Sep));
      assert fs == [fs[0]] + fs[1..];
    }
  }

  /** Cancelling a composite drops its identity factors and keeps the others in order. */
  lemma CancelFactors(fs: seq<string>)
    requires |fs| > 0
    requires forall k :: 0 <= k < |fs| ==> NoSep(fs[k])
    requires !Pure(Strip(Join(fs, Sep)))
    ensures Cancelled(Join(fs, Sep)) == Join(Kept(fs), Sep)
  {
    FactorsJoin(fs);
    FixpointWithout(Join(fs, Sep));
  }

  /** The first example of the `_cancel_identities` docstring: an identity between `g` and `h`. */
  lemma CancelExample()
    ensures Cancelled(Join(["f", "g", "1_A", "h"], Sep)) == Join(["f", "g", "h"], Sep)
  {
    var fs := ["f", "g", "1_A", "h"];
    var text := Join(fs, Sep);
    forall k | 0 <= k < |fs|
      ensures NoSep(fs[k])
    {
    }
    assert Join(fs[3..], Sep) == "h";
    assert Join(fs[2..], Sep) == "1_A" + Sep + "h";
    assert Join(fs[1..], Sep) == "g" + Sep + Join(fs[2..], Sep);
    assert text == "f" + Sep + Join(fs[1..], Sep);
    assert text[0] == 'f' && text[|text| - 1] == 'h';
    StripTrimmed(text);
    assert Kept(fs) == ["f", "g", "h"] by {
      assert IsIdentity(fs[2]);
      assert Kept(fs[3..]) == ["h"];
    }
    CancelFactors(fs);
  }

  /**
   * `CancelIdentityProofStep.is_applicable`: one arrow is selected, its
   * displayed label contains `1_`, and the stripped label is not a lone identity.
   */
  predicate CancelApplicable(arrowCount: nat, text: string)
  {
    arrowCount == 1 && Contains(text, "1_") && !Pure(Strip(text))
  }
}
