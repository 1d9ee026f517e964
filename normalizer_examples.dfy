/** Worked inputs of the formula normaliser, each proved stage by stage. */
module NormalizerExamples {
  import opened Strings
  import opened Normalizer

  /** A trimmed one-line formula without `\\` is not flattened further. */
  lemma FlattenUnchanged(f: string)
    requires Trimmed(f) && '\r' !in f && '\n' !in f && NoBackslashPair(f)
    ensures Flatten(f) == f
  {
    TrimUnchanged(f);
    LatexBreaksMeaning(f);
  }

  /** A string without whitespace pairs or whitespace at its ends is not
      compacted or trimmed further. */
  lemma SqueezeUnchanged(g: string)
    requires NoSpacePair(g) && Trimmed(g)
    ensures Trim(Compact(g)) == g
  {
    TrimUnchanged(g);
  }

  lemma InlineUnwrap()
    ensures Unwrap("$x^2$") == "x^2"
  {
    var f := "$x^2$";
    assert SkipSpaces(f, 0) == 0;
    assert f[0..2][1] != "$$"[1];
    assert BackSpaces(f, 5) == 5;
    assert f[3..5][0] != "$$"[0];
    assert StripDelimiters(f, "$$", "$$") == f;
    assert f[0..1] == "$";
    assert SkipSpaces(f, 1) == 1;
    assert f[4..5] == "$";
    assert BackSpaces(f, 4) == 4;
    assert StripDelimiters(f, "$", "$") == "x^2";
    var g := "x^2";
    PlainEnds(g);
    StripUnchanged(g, "\\(", "\\)");
    StripUnchanged(g, "\\[", "\\]");
  }

  lemma InlineFlatten()
    ensures Flatten("$x^2$") == "$x^2$"
  {
    var f := "$x^2$";
    assert NoBackslashPair(f);
    FlattenUnchanged(f);
  }

  lemma InlineSqueeze()
    ensures Trim(Compact("x^2")) == "x^2"
  {
    assert NoSpacePair("x^2");
    SqueezeUnchanged("x^2");
  }

  /** `$x^2$` loses its dollars. */
  lemma InlineExample()
    ensures CleanFormula("$x^2$") == "x^2"
  {
    InlineFlatten();
    InlineUnwrap();
    InlineSqueeze();
  }

  /** The line-break replacement copies a prefix without backslashes. */
  lemma {:induction false} LatexBreaksCopies(a: string, b: string)
    requires forall k :: 0 <= k < |a| ==> a[k] != '\\'
    ensures LatexBreaks(a + b) == a + LatexBreaks(b)
    decreases |a|
  {
    if a == [] {
      assert a + b == b;
    } else {
      var ab := a + b;
      assert ab[0] == a[0];
      assert ab[1..] == a[1..] + b;
      assert LatexBreaks(ab) == [ab[0]] + LatexBreaks(ab[1..]);
      LatexBreaksCopies(a[1..], b);
      assert a == [a[0]] + a[1..];
    }
  }

  lemma BreakTail()
    ensures LatexBreaks("\\\\ b $$") == "  b $$"
  {
    var u := "\\\\ b $$";
    var v := " b $$";
    LatexBreaksMeaning(v);
    assert NoBackslashPair(v);
    assert BreakEnd(u) == 2;
    assert u[2..] == v;
  }

  lemma BlockBreaks()
    ensures LatexBreaks("$$ a \\\\ b $$") == "$$ a   b $$"
  {
    var w := "$$ a ";
    var u := "\\\\ b $$";
    assert forall k :: 0 <= k < |w| ==> w[k] != '\\';
    LatexBreaksCopies(w, u);
    BreakTail();
    assert w + u == "$$ a \\\\ b $$";
    assert w + "  b $$" == "$$ a   b $$";
  }

  lemma BlockFlatten()
    ensures Flatten("$$ a \\\\ b $$") == "$$ a   b $$"
  {
    var f := "$$ a \\\\ b $$";
    TrimUnchanged(f);
    assert '\r' !in f && '\n' !in f;
    BlockBreaks();
  }

  lemma BlockStrip()
    ensures StripDelimiters("$$ a   b $$", "$$", "$$") == "a   b"
  {
    var t := "$$ a   b $$";
    assert SkipSpaces(t, 0) == 0;
    assert t[0..2] == "$$";
    assert SkipSpaces(t, 2) == 3;
    assert BackSpaces(t, 11) == 11;
    assert t[9..11] == "$$";
    assert BackSpaces(t, 9) == 8;
    assert t[3..8] == "a   b";
  }

  /** A string that starts and ends with a letter or digit is trimmed and
      carries no delimiter. */
  lemma PlainEnds(g: string)
    requires |g| > 0 && Plain(g[0]) && Plain(g[|g| - 1])
    ensures Trimmed(g) && Undelimited(g)
  {
    EndChars(g, "$");
    EndChars(g, "\\(");
    EndChars(g, "\\)");
    EndChars(g, "\\[");
    EndChars(g, "\\]");
  }

  predicate Plain(c: char) {
    'a' <= c <= 'z' || '0' <= c <= '9'
  }

  lemma BlockUnwrap()
    ensures Unwrap("$$ a   b $$") == "a   b"
  {
    BlockStrip();
    var g := "a   b";
    PlainEnds(g);
    StripUnchanged(g, "$", "$");
    StripUnchanged(g, "\\(", "\\)");
    StripUnchanged(g, "\\[", "\\]");
  }

  lemma BlockSqueeze()
    ensures Trim(Compact("a   b")) == "a b"
  {
    assert SkipSpaces("   b", 0) == 3;
    assert Compact("   b") == " b";
    assert Compact("a   b") == "a b";
    TrimUnchanged("a b");
  }

  /** A display formula with a LaTeX line break inside becomes one line. */
  lemma BlockExample()
    ensures CleanFormula("$$ a \\\\ b $$") == "a b"
  {
    BlockFlatten();
    BlockUnwrap();
    BlockSqueeze();
  }

  lemma NestedFlatten()
    ensures Flatten("$$\\(x\\)$$") == "$$\\(x\\)$$"
  {
    var f := "$$\\(x\\)$$";
    assert NoBackslashPair(f);
    FlattenUnchanged(f);
  }

  lemma NestedDollars()
    ensures StripDelimiters("$$\\(x\\)$$", "$$", "$$") == "\\(x\\)"
  {
    var f := "$$\\(x\\)$$";
    assert SkipSpaces(f, 0) == 0;
    assert f[0..2] == "$$";
    assert SkipSpaces(f, 2) == 2;
    assert BackSpaces(f, 9) == 9;
    assert f[7..9] == "$$";
    assert BackSpaces(f, 7) == 7;
    assert f[2..7] == "\\(x\\)";
  }

  lemma NestedParens()
    ensures StripDelimiters("\\(x\\)", "$", "$") == "\\(x\\)"
    ensures StripDelimiters("\\(x\\)", "\\(", "\\)") == "x"
  {
    var h := "\\(x\\)";
    assert h[0] == '\\' && h[4] == ')';
    assert !OccursAt(h, "$", 0) by { assert h[0] != "$"[0]; }
    assert !EndsWith(h, "$") by { assert h[4] != "$"[0]; }
    StripUnchanged(h, "$", "$");
    assert SkipSpaces(h, 0) == 0;
    assert h[0..2] == "\\(";
    assert SkipSpaces(h, 2) == 2;
    assert BackSpaces(h, 5) == 5;
    assert h[3..5] == "\\)";
    assert BackSpaces(h, 3) == 3;
    assert h[2..3] == "x";
  }

  lemma NestedUnwrap()
    ensures Unwrap("$$\\(x\\)$$") == "x"
  {
    NestedDollars();
    NestedParens();
    PlainEnds("x");
    StripUnchanged("x", "\\[", "\\]");
  }

  /** A formula wrapped in two delimiter styles loses both, because the four
      removals run one after the other. */
  lemma NestedExample()
    ensures CleanFormula("$$\\(x\\)$$") == "x"
  {
    NestedFlatten();
    NestedUnwrap();
    PlainEnds("x");
    SqueezeUnchanged("x");
  }

  lemma TwiceFlatten()
    ensures Flatten("$$ $ $x$ $ $$") == "$$ $ $x$ $ $$"
  {
    var f := "$$ $ $x$ $ $$";
    assert '\\' !in f;
    assert NoBackslashPair(f);
    FlattenUnchanged(f);
  }

  lemma TwiceDollars()
    ensures StripDelimiters("$$ $ $x$ $ $$", "$$", "$$") == "$ $x$ $"
  {
    var f := "$$ $ $x$ $ $$";
    assert SkipSpaces(f, 0) == 0;
    assert f[0..2] == "$$";
    assert SkipSpaces(f, 2) == 3;
    assert BackSpaces(f, 13) == 13;
    assert f[11..13] == "$$";
    assert BackSpaces(f, 11) == 10;
    assert f[3..10] == "$ $x$ $";
  }

  lemma TwiceDollar()
    ensures StripDelimiters("$ $x$ $", "$", "$") == "$x$"
  {
    var h := "$ $x$ $";
    assert SkipSpaces(h, 0) == 0;
    assert h[0..1] == "$";
    assert SkipSpaces(h, 1) == 2;
    assert BackSpaces(h, 7) == 7;
    assert h[6..7] == "$";
    assert BackSpaces(h, 6) == 5;
    assert h[2..5] == "$x$";
  }

  /** `$x$` is trimmed, compact and not wrapped in `\(...\)` or `\[...\]`. */
  lemma DollarXRest()
    ensures StripDelimiters("$x$", "\\(", "\\)") == "$x$"
    ensures StripDelimiters("$x$", "\\[", "\\]") == "$x$"
    ensures Trim(Compact("$x$")) == "$x$"
  {
    var g := "$x$";
    assert Trimmed(g);
    assert !OccursAt(g, "\\(", 0) by { assert g[0] != "\\("[0]; }
    assert !OccursAt(g, "\\[", 0) by { assert g[0] != "\\["[0]; }
    assert !EndsWith(g, "\\)") by { assert g[2] != "\\)"[1]; }
    assert !EndsWith(g, "\\]") by { assert g[2] != "\\]"[1]; }
    StripUnchanged(g, "\\(", "\\)");
    StripUnchanged(g, "\\[", "\\]");
    assert NoSpacePair(g);
    SqueezeUnchanged(g);
  }

  lemma DollarXUnwrap()
    ensures Unwrap("$x$") == "x"
  {
    var f := "$x$";
    assert SkipSpaces(f, 0) == 0;
    assert f[0..2][1] != "$$"[1];
    assert BackSpaces(f, 3) == 3;
    assert f[1..3][0] != "$$"[0];
    assert StripDelimiters(f, "$$", "$$") == f;
    assert f[0..1] == "$";
    assert SkipSpaces(f, 1) == 1;
    assert f[2..3] == "$";
    assert BackSpaces(f, 2) == 2;
    assert StripDelimiters(f, "$", "$") == "x";
    PlainEnds("x");
    StripUnchanged("x", "\\(", "\\)");
    StripUnchanged("x", "\\[", "\\]");
  }

  lemma DollarXExample()
    ensures CleanFormula("$x$") == "x"
  {
    var f := "$x$";
    assert NoBackslashPair(f);
    FlattenUnchanged(f);
    DollarXUnwrap();
    PlainEnds("x");
    SqueezeUnchanged("x");
  }

  /** The normaliser is not idempotent: a display formula holding an inline
      one keeps the inner dollars on the first pass and loses them on the
      second. */
  lemma NotIdempotent()
    ensures CleanFormula("$$ $ $x$ $ $$") == "$x$"
    ensures CleanFormula(CleanFormula("$$ $ $x$ $ $$")) == "x"
  {
    TwiceFlatten();
    TwiceDollars();
    TwiceDollar();
    DollarXRest();
    DollarXExample();
  }
}
