/**
 The name normalizer: `standardize_filename` of file_organizer.py.

 A stem is lowercased, every maximal run of separators (whitespace, `.`
 and `-`) becomes one `_`, and leading and trailing `_` are stripped.
 Underscores already present are not separators, so they are neither
 merged nor removed in the middle of a name.
 */
module Normalizer {
  import opened Text

  /** The regular-expression class `[\s.-]`. */
  predicate IsSep(c: char) {
    c == '.' || c == '-' || IsSpace(c)
  }

  predicate NoSep(s: string) {
    forall i :: 0 <= i < |s| ==> !IsSep(s[i])
  }

  predicate AllUnderscore(s: string) {
    forall i :: 0 <= i < |s| ==> s[i] == '_'
  }

  /** Neither the first nor the last character is `_`. */
  predicate UnderscoreTrimmed(s: string) {
    s == [] || (s[0] != '_' && s[|s| - 1] != '_')
  }

  // ---------------------------------------------------------------------
  // Step 2: collapsing separator runs
  // ---------------------------------------------------------------------

  /** The length of the separator run at the front of `s`: every
      character before it is a separator and the one at it is not. */
  function RunLength(s: string): (n: nat)
    ensures n <= |s|
    ensures forall k :: 0 <= k < n ==> IsSep(s[k])
    ensures n < |s| ==> !IsSep(s[n])
    ensures s != [] && IsSep(s[0]) ==> n > 0
  {
    if s != [] && IsSep(s[0]) then 1 + RunLength(s[1..]) else 0
  }

  /** `re.sub(r'[\s.-]+', '_', s)`: scans left to right, replacing each
      maximal separator run by one `_`. */
  function Collapse(s: string): string
    decreases |s|
  {
    if s == [] then []
    else if IsSep(s[0]) then "_" + Collapse(s[RunLength(s)..])
    else [s[0]] + Collapse(s[1..])
  }

  /** The collapsed string has no separator left, is no longer than its
      input, and each of its characters is `_` or comes from the input. */
  lemma {:induction false} CollapseAlphabet(s: string)
    ensures NoSep(Collapse(s))
    ensures |Collapse(s)| <= |s|
    ensures forall c :: c in Collapse(s) ==> c == '_' || c in s
    decreases |s|
  {
    if s != [] {
      if IsSep(s[0]) {
        var t := s[RunLength(s)..];
        CollapseAlphabet(t);
        assert forall c :: c in t ==> c in s;
        assert Collapse(s) == "_" + Collapse(t);
      } else {
        CollapseAlphabet(s[1..]);
        assert forall c :: c in s[1..] ==> c in s;
        assert Collapse(s) == [s[0]] + Collapse(s[1..]);
      }
    }
  }

  /** What position `i` contributes to the collapsed string: a non-separator
      is kept, the first separator of a maximal run becomes `_`, and the
      remaining separators of the run contribute nothing. */
  function Emit(s: string, i: nat): string
    requires i < |s|
  {
    if !IsSep(s[i]) then [s[i]]
    else if i > 0 && IsSep(s[i - 1]) then []
    else "_"
  }

  /** Reference definition of the collapse, position by position from `i`. */
  function CollapseSpec(s: string, i: nat): string
    requires i <= |s|
    decreases |s| - i
  {
    if i == |s| then [] else Emit(s, i) + CollapseSpec(s, i + 1)
  }

  /** Inside a separator run, the positions after the first contribute nothing. */
  lemma {:induction false} CollapseSpecSkipsRun(s: string, a: nat, j: nat)
    requires 0 < a <= j <= |s|
    requires forall k :: a - 1 <= k < j ==> IsSep(s[k])
    ensures CollapseSpec(s, a) == CollapseSpec(s, j)
    decreases j - a
  {
    if a < j {
      assert Emit(s, a) == [];
      CollapseSpecSkipsRun(s, a + 1, j);
    }
  }

  lemma {:induction false} CollapseFrom(s: string, i: nat)
    requires i <= |s|
    requires i == |s| || i == 0 || !IsSep(s[i - 1]) || !IsSep(s[i])
    ensures Collapse(s[i..]) == CollapseSpec(s, i)
    decreases |s| - i
  {
    if i == |s| {
      assert s[i..] == [];
    } else if !IsSep(s[i]) {
      assert s[i..][1..] == s[i + 1..];
      assert Collapse(s[i..]) == [s[i]] + Collapse(s[i + 1..]);
      assert CollapseSpec(s, i) == [s[i]] + CollapseSpec(s, i + 1);
      CollapseFrom(s, i + 1);
    } else {
      var n := RunLength(s[i..]);
      var j := i + n;
      assert s[i..][n..] == s[j..];
      forall k | i <= k < j ensures IsSep(s[k]) {
        assert s[k] == s[i..][k - i];
      }
      assert j < |s| ==> s[j] == s[i..][n];
      CollapseSpecSkipsRun(s, i + 1, j);
      assert Collapse(s[i..]) == "_" + Collapse(s[j..]);
      assert CollapseSpec(s, i) == "_" + CollapseSpec(s, i + 1);
      CollapseFrom(s, j);
    }
  }

  /** The scan agrees with the position-wise reference: every maximal
      separator run becomes exactly one `_` and every other character is
      kept, in order. */
  lemma CollapseMatchesSpec(s: string)
    ensures Collapse(s) == CollapseSpec(s, 0)
  {
    CollapseFrom(s, 0);
    assert s[0..] == s;
  }

  /** A string without separators is left as it is; in particular runs of
      `_` are not merged. */
  lemma {:induction false} CollapseKeepsSepFree(s: string)
    requires NoSep(s)
    ensures Collapse(s) == s
    decreases |s|
  {
    if s != [] {
      CollapseKeepsSepFree(s[1..]);
    }
  }

  /** A separator run that ends inside `a` is not lengthened by `b`. */
  lemma {:induction false} RunLengthAppend(a: string, b: string)
    requires a != [] && !IsSep(a[|a| - 1])
    ensures RunLength(a + b) == RunLength(a) < |a|
    decreases |a|
  {
    assert (a + b)[0] == a[0];
    if IsSep(a[0]) {
      assert |a| > 1;
      assert (a + b)[1..] == a[1..] + b;
      RunLengthAppend(a[1..], b);
    }
  }

  lemma ConcatAssoc(x: string, y: string, z: string)
    ensures x + (y + z) == (x + y) + z
  {
  }

  /** Collapsing works piecewise when the cut does not split a separator run. */
  lemma {:induction false} CollapseAppend(a: string, b: string)
    requires a == [] || !IsSep(a[|a| - 1])
    ensures Collapse(a + b) == Collapse(a) + Collapse(b)
    decreases |a|
  {
    if a == [] {
      assert a + b == b;
    } else if IsSep(a[0]) {
      RunLengthAppend(a, b);
      var n := RunLength(a);
      var t := a[n..];
      assert (a + b)[n..] == t + b;
      assert t != [] && t[|t| - 1] == a[|a| - 1];
      CollapseAppend(t, b);
      assert (a + b)[0] == a[0];
      assert Collapse(a + b) == "_" + Collapse(t + b);
      assert Collapse(a) == "_" + Collapse(t);
      ConcatAssoc("_", Collapse(t), Collapse(b));
    } else {
      assert (a + b)[1..] == a[1..] + b;
      CollapseAppend(a[1..], b);
      assert (a + b)[0] == a[0];
      assert Collapse(a + b) == [a[0]] + Collapse(a[1..] + b);
      assert Collapse(a) == [a[0]] + Collapse(a[1..]);
      ConcatAssoc([a[0]], Collapse(a[1..]), Collapse(b));
    }
  }

  // ---------------------------------------------------------------------
  // Step 3: stripping underscores
  // ---------------------------------------------------------------------

  /** `s.lstrip('_')` */
  function TrimLeading(s: string): string {
    if s != [] && s[0] == '_' then TrimLeading(s[1..]) else s
  }

  /** `lstrip` cuts off a prefix of underscores, and all of it. */
  lemma {:induction false} TrimLeadingShape(s: string)
    ensures var r := TrimLeading(s);
      && |r| <= |s| && r == s[|s| - |r|..]
      && (forall k :: 0 <= k < |s| - |r| ==> s[k] == '_')
      && (r == [] || r[0] != '_')
  {
    if s != [] && s[0] == '_' {
      TrimLeadingShape(s[1..]);
      var r := TrimLeading(s[1..]);
      assert s[1..][|s| - 1 - |r|..] == s[|s| - |r|..];
      forall k | 0 <= k < |s| - |r| ensures s[k] == '_' {
        if k > 0 { assert s[k] == s[1..][k - 1]; }
      }
    }
  }

  /** `s.rstrip('_')` */
  function TrimTrailing(s: string): string {
    if s != [] && s[|s| - 1] == '_' then TrimTrailing(s[..|s| - 1]) else s
  }

  /** `rstrip` cuts off a suffix of underscores, and all of it. */
  lemma {:induction false} TrimTrailingShape(s: string)
    ensures var r := TrimTrailing(s);
      && |r| <= |s| && r == s[..|r|]
      && (forall k :: |r| <= k < |s| ==> s[k] == '_')
      && (r == [] || r[|r| - 1] != '_')
  {
    if s != [] && s[|s| - 1] == '_' {
      var t := s[..|s| - 1];
      TrimTrailingShape(t);
      var r := TrimTrailing(t);
      assert t[..|r|] == s[..|r|];
      forall k | |r| <= k < |s| ensures s[k] == '_' {
        if k < |s| - 1 { assert s[k] == t[k]; }
      }
    }
  }

  /** `r` is the piece of `s` starting at `i`, with only underscores before
      and after it. */
  predicate UnderscoreFramed(s: string, r: string, i: int) {
    0 <= i <= i + |r| <= |s| && r == s[i..i + |r|] && AllUnderscore(s[..i]) && AllUnderscore(s[i + |r|..])
  }

  /** `s.strip('_')` */
  function StripUnderscores(s: string): string {
    TrimTrailing(TrimLeading(s))
  }

  /** Only underscores are cut off, on either side: the result is a
      contiguous piece of `s` with nothing but underscores before and after
      it, neither starts nor ends with `_`, is empty exactly when `s` is all
      underscores, and is `s` itself when `s` has nothing to strip. */
  lemma StripUnderscoresShape(s: string)
    ensures var r := StripUnderscores(s);
      && (exists i :: UnderscoreFramed(s, r, i))
      && UnderscoreTrimmed(r)
      && |r| <= |s|
      && (forall c :: c in r ==> c in s)
      && (r == [] <==> AllUnderscore(s))
      && (UnderscoreTrimmed(s) ==> r == s)
  {
    var t := TrimLeading(s);
    var r := TrimTrailing(t);
    TrimLeadingShape(s);
    TrimTrailingShape(t);
    var i := |s| - |t|;
    assert r == s[i..i + |r|];
    assert AllUnderscore(s[..i]);
    var u := s[i + |r|..];
    forall k | 0 <= k < |u| ensures u[k] == '_' {
      assert u[k] == t[|r| + k];
    }
    assert UnderscoreFramed(s, StripUnderscores(s), i);
    assert t != [] ==> t[0] == s[i];
    assert s[..|s|] == s;
    assert forall c :: c in r ==> c in t;
    assert forall c :: c in t ==> c in s;
    if r != [] {
      assert r[0] == t[0];
      assert t[0] != '_';
    }
    if UnderscoreTrimmed(s) {
      if s != [] {
        assert t == s;
        assert r == s;
      }
    }
  }

  // ---------------------------------------------------------------------
  // The whole transform
  // ---------------------------------------------------------------------

  /** `standardize_filename(stem)` */
  function Standardize(s: string): string {
    StripUnderscores(Collapse(Lower(s)))
  }

  /** A normalized stem has no separator and no capital letter, neither
      starts nor ends with `_`, is no longer than the stem, and each of its
      characters is `_` or a lowercased character of the stem. */
  lemma StandardizeShape(s: string)
    ensures var r := Standardize(s);
      && NoSep(r)
      && IsLowered(r)
      && UnderscoreTrimmed(r)
      && |r| <= |s|
      && (forall c :: c in r ==> c == '_' || c in Lower(s))
  {
    var l := Lower(s);
    var c := Collapse(l);
    var r := StripUnderscores(c);
    CollapseAlphabet(l);
    StripUnderscoresShape(c);
    forall k | 0 <= k < |r| ensures !IsSep(r[k]) && !IsUpper(r[k]) {
      assert r[k] in c;
      var j :| 0 <= j < |c| && c[j] == r[k];
      assert !IsSep(c[j]);
      if c[j] != '_' {
        assert c[j] in l;
        var i :| 0 <= i < |l| && l[i] == c[j];
        assert l[i] == ToLower(s[i]);
      }
    }
  }

  /** Normalizing twice is normalizing once. */
  lemma StandardizeIdempotent(s: string)
    ensures Standardize(Standardize(s)) == Standardize(s)
  {
    var t := Standardize(s);
    StandardizeShape(s);
    LowerFixedIff(t);
    CollapseKeepsSepFree(t);
    StripUnderscoresShape(t);
  }

  /** Nothing in `s` survives normalization except possibly underscores. */
  predicate OnlySepOrUnderscore(s: string) {
    forall i :: 0 <= i < |s| ==> IsSep(s[i]) || s[i] == '_'
  }

  /** The normalized form is empty exactly when the stem has nothing but
      separators and underscores. */
  lemma StandardizeEmptyIff(s: string)
    ensures Standardize(s) == [] <==> OnlySepOrUnderscore(s)
  {
    var l := Lower(s);
    var c := Collapse(l);
    assert Standardize(s) == StripUnderscores(c);
    StripUnderscoresShape(c);
    CollapseAllUnderscore(l);
    LowerKeepsSepOrUnderscore(s);
  }

  lemma LowerKeepsSepOrUnderscore(s: string)
    ensures OnlySepOrUnderscore(Lower(s)) <==> OnlySepOrUnderscore(s)
  {
    var l := Lower(s);
    forall i | 0 <= i < |s| ensures (IsSep(s[i]) || s[i] == '_') <==> (IsSep(l[i]) || l[i] == '_') {
      assert l[i] == ToLower(s[i]);
    }
  }

  /** Collapsing produces only underscores exactly when the input is made
      of separators and underscores. */
  lemma {:induction false} CollapseAllUnderscore(s: string)
    ensures AllUnderscore(Collapse(s)) <==> OnlySepOrUnderscore(s)
    decreases |s|
  {
    if s != [] {
      if IsSep(s[0]) {
        var n := RunLength(s);
        var t := s[n..];
        CollapseAllUnderscore(t);
        assert Collapse(s) == "_" + Collapse(t);
        assert AllUnderscore(Collapse(s)) <==> AllUnderscore(Collapse(t)) by {
          var cs, ct := Collapse(s), Collapse(t);
          assert forall i :: 0 <= i < |ct| ==> ct[i] == cs[i + 1];
          if AllUnderscore(ct) {
            forall i | 0 <= i < |cs| ensures cs[i] == '_' {
              if i > 0 { assert cs[i] == ct[i - 1]; }
            }
          }
        }
        if OnlySepOrUnderscore(t) {
          forall i | 0 <= i < |s| ensures IsSep(s[i]) || s[i] == '_' {
            if i >= n { assert s[i] == t[i - n]; }
          }
        }
        if OnlySepOrUnderscore(s) {
          forall i | 0 <= i < |t| ensures IsSep(t[i]) || t[i] == '_' {
            assert t[i] == s[n + i];
          }
        }
      } else {
        var t := s[1..];
        CollapseAllUnderscore(t);
        assert Collapse(s) == [s[0]] + Collapse(t);
        if OnlySepOrUnderscore(s) {
          forall i | 0 <= i < |t| ensures IsSep(t[i]) || t[i] == '_' {
            assert t[i] == s[i + 1];
          }
        }
        if AllUnderscore(Collapse(s)) {
          assert Collapse(s)[0] == s[0] == '_';
          assert AllUnderscore(Collapse(t)) by {
            forall i | 0 <= i < |Collapse(t)| ensures Collapse(t)[i] == '_' {
              assert Collapse(t)[i] == Collapse(s)[i + 1];
            }
          }
          forall i | 0 <= i < |s| ensures IsSep(s[i]) || s[i] == '_' {
            if i > 0 { assert s[i] == t[i - 1]; }
          }
        }
      }
    }
  }

  /** Collapsing a separator run followed by a separator-free word. */
  lemma CollapseRunThenWord(run: string, word: string)
    requires run != [] && forall k :: 0 <= k < |run| ==> IsSep(run[k])
    requires word != [] && NoSep(word)
    ensures Collapse(run + word) == "_" + word
  {
    RunLengthOverRun(run, word);
    assert (run + word)[|run|..] == word;
    CollapseKeepsSepFree(word);
  }

  /** Collapsing two separator-free words joined by a separator run. */
  lemma CollapseTwoWords(w1: string, g: string, w2: string)
    requires w1 != [] && NoSep(w1) && w2 != [] && NoSep(w2)
    requires g != [] && forall k :: 0 <= k < |g| ==> IsSep(g[k])
    ensures Collapse(w1 + (g + w2)) == w1 + ("_" + w2)
  {
    CollapseAppend(w1, g + w2);
    CollapseKeepsSepFree(w1);
    CollapseRunThenWord(g, w2);
  }

  /** The run at the front of `run + word` is all of `run`. */
  lemma {:induction false} RunLengthOverRun(run: string, word: string)
    requires forall k :: 0 <= k < |run| ==> IsSep(run[k])
    requires word != [] && !IsSep(word[0])
    ensures RunLength(run + word) == |run|
    decreases |run|
  {
    if run == [] {
      assert run + word == word;
    } else {
      assert (run + word)[0] == run[0];
      assert (run + word)[1..] == run[1..] + word;
      RunLengthOverRun(run[1..], word);
    }
  }

  /** Words separated by separator runs come out joined by single
      underscores. */
  lemma CollapseWords(w1: string, g1: string, w2: string, g2: string, w3: string, g3: string, w4: string)
    requires w1 != [] && NoSep(w1) && w2 != [] && NoSep(w2) && w3 != [] && NoSep(w3) && w4 != [] && NoSep(w4)
    requires g1 != [] && forall k :: 0 <= k < |g1| ==> IsSep(g1[k])
    requires g2 != [] && forall k :: 0 <= k < |g2| ==> IsSep(g2[k])
    requires g3 != [] && forall k :: 0 <= k < |g3| ==> IsSep(g3[k])
    ensures Collapse(w1 + (g1 + w2) + (g2 + w3) + (g3 + w4)) == w1 + ("_" + w2) + ("_" + w3) + ("_" + w4)
  {
    CollapseKeepsSepFree(w1);
    assert !IsSep(w1[|w1| - 1]);
    var a := w1 + (g1 + w2);
    CollapseExtend(w1, g1, w2);
    var b := a + (g2 + w3);
    CollapseExtend(a, g2, w3);
    CollapseExtend(b, g3, w4);
  }

  /** Collapsing grows by `_` and a word when a separator run and a
      separator-free word are appended after a non-separator. */
  lemma CollapseExtend(x: string, g: string, w: string)
    requires x != [] && !IsSep(x[|x| - 1])
    requires g != [] && forall k :: 0 <= k < |g| ==> IsSep(g[k])
    requires w != [] && NoSep(w)
    ensures Collapse(x + (g + w)) == Collapse(x) + ("_" + w)
    ensures var y := x + (g + w); y != [] && !IsSep(y[|y| - 1])
  {
    CollapseAppend(x, g + w);
    CollapseRunThenWord(g, w);
    var y := x + (g + w);
    assert y[|y| - 1] == w[|w| - 1];
  }

  lemma StandardizeExample(s: string)
    requires s == "My Photo - Vacation.2023"
    ensures Standardize(s) == "my_photo_vacation_2023"
  {
    LowerExample(s);
    ExampleWords();
    ExampleGaps();
    CollapseWords("my", " ", "photo", " - ", "vacation", ".", "2023");
    StandardizeVia(s, "my_photo_vacation_2023");
  }

  lemma StandardizeVia(s: string, c: string)
    requires Collapse(Lower(s)) == c && UnderscoreTrimmed(c)
    ensures Standardize(s) == c
  {
    StripUnderscoresShape(c);
  }

  lemma ExampleWords()
    ensures NoSep("my") && NoSep("photo") && NoSep("vacation") && NoSep("2023")
  {
    SepFreeWord("my");
    SepFreeWord("photo");
    SepFreeWord("vacation");
    SepFreeWord("2023");
  }

  /** Letters and digits are not separators. */
  lemma SepFreeWord(w: string)
    requires forall k :: 0 <= k < |w| ==> 'a' <= w[k] <= 'z' || '0' <= w[k] <= '9'
    ensures NoSep(w)
  {
    forall k | 0 <= k < |w| ensures !IsSep(w[k]) {
      assert w[k] !in SpaceChars;
    }
  }

  lemma ExampleGaps()
    ensures var g := " "; forall k :: 0 <= k < |g| ==> IsSep(g[k])
    ensures var g := " - "; forall k :: 0 <= k < |g| ==> IsSep(g[k])
    ensures var g := "."; forall k :: 0 <= k < |g| ==> IsSep(g[k])
  {
  }

  lemma LowerExample(s: string)
    requires s == "My Photo - Vacation.2023"
    ensures Lower(s) == "my" + (" " + "photo") + (" - " + "vacation") + ("." + "2023")
  {
  }

  /** Normalization leaves a stem unchanged exactly when it has no
      separator, no capital letter, and no `_` at either end; underscores
      inside a name are therefore neither merged nor removed. */
  lemma StandardizeFixedIff(s: string)
    ensures Standardize(s) == s <==> NoSep(s) && IsLowered(s) && UnderscoreTrimmed(s)
  {
    StandardizeShape(s);
    if NoSep(s) && IsLowered(s) && UnderscoreTrimmed(s) {
      LowerFixedIff(s);
      CollapseKeepsSepFree(s);
      StripUnderscoresShape(s);
    }
  }

  /** An example: doubled underscores inside a name are kept. */
  lemma StandardizeKeepsUnderscores()
    ensures Standardize("a__b") == "a__b"
  {
    var s := "a__b";
    assert Lower(s) == s;
    CollapseKeepsSepFree(s);
  }

  /** A stem of separators only normalizes to the empty string. */
  lemma StandardizeSeparatorsOnly(s: string)
    requires forall k :: 0 <= k < |s| ==> IsSep(s[k])
    ensures Standardize(s) == ""
  {
    StandardizeEmptyIff(s);
  }
}
