/** The tokenizer that turns the "Convert from:" line into a list of file extensions:
    split on every non-alphabetic character, then drop the empty pieces. */
module Extensions {
  import opened Text

  predicate AllAlpha(s: string) {
    forall i :: 0 <= i < |s| ==> IsAlpha(s[i])
  }

  /** The alphabetic characters of `s`, in order. */
  function Letters(s: string): (r: string)
    ensures AllAlpha(r) && |r| <= |s|
  {
    if s == [] then []
    else (if IsAlpha(s[0]) then [s[0]] else []) + Letters(s[1..])
  }

  /** The pieces joined end to end. */
  function Concat(ps: seq<string>): string {
    if ps == [] then [] else ps[0] + Concat(ps[1..])
  }

  /** The pieces that `str::split` yields when every non-alphabetic character is a
      separator, empty pieces included. */
  function Pieces(s: string): (ps: seq<string>)
    ensures |ps| >= 1
    decreases |s|
  {
    if s == [] then [[]]
    else
      var rest := Pieces(s[1..]);
      if IsAlpha(s[0]) then [[s[0]] + rest[0]] + rest[1..] else [[]] + rest
  }

  /** There is one more piece than there are separators (the characters that are not
      letters). */
  lemma {:induction false} PiecesCount(s: string)
    ensures |Pieces(s)| == |s| - |Letters(s)| + 1
    decreases |s|
  {
    if s != [] {
      PiecesCount(s[1..]);
    }
  }

  lemma AlphaPrepend(c: char, t: string)
    requires IsAlpha(c) && AllAlpha(t)
    ensures AllAlpha([c] + t)
  {
    assert forall i :: 1 <= i <= |t| ==> ([c] + t)[i] == t[i - 1];
  }

  /** Every piece is made of letters only, and the pieces together are exactly the
      letters of `s`, in order. */
  lemma {:induction false} PiecesSpec(s: string)
    ensures forall k :: 0 <= k < |Pieces(s)| ==> AllAlpha(Pieces(s)[k])
    ensures Concat(Pieces(s)) == Letters(s)
    decreases |s|
  {
    if s != [] {
      PiecesSpec(s[1..]);
      var rest := Pieces(s[1..]);
      var ps := Pieces(s);
      if IsAlpha(s[0]) {
        assert ps[1..] == rest[1..];
        assert ps[0] == [s[0]] + rest[0];
        AlphaPrepend(s[0], rest[0]);
        assert Concat(rest) == rest[0] + Concat(rest[1..]);
      } else {
        assert ps[1..] == rest;
      }
    }
  }

  /** `.filter(|s| s.len() > 0)`: the non-empty pieces, in order. */
  function NonEmpty(ps: seq<string>): (r: seq<string>)
    ensures |r| <= |ps|
  {
    if ps == [] then []
    else if ps[0] == [] then NonEmpty(ps[1..])
    else [ps[0]] + NonEmpty(ps[1..])
  }

  /** What the filter returns is non-empty, all-alphabetic when every piece is, and joins
      to the same text; a single piece is kept unchanged exactly when it is non-empty.
      With `NonEmptyAppend` this determines the filter: the non-empty pieces, unchanged
      and in order. */
  lemma {:induction false} NonEmptySpec(ps: seq<string>)
    ensures |ps| == 1 ==> NonEmpty(ps) == if ps[0] == [] then [] else ps
    ensures forall k :: 0 <= k < |NonEmpty(ps)| ==> NonEmpty(ps)[k] != []
    ensures (forall k :: 0 <= k < |ps| ==> AllAlpha(ps[k])) ==>
      forall k :: 0 <= k < |NonEmpty(ps)| ==> AllAlpha(NonEmpty(ps)[k])
    ensures Concat(NonEmpty(ps)) == Concat(ps)
  {
    if ps != [] {
      NonEmptySpec(ps[1..]);
      var r := NonEmpty(ps);
      if ps[0] != [] {
        assert r[1..] == NonEmpty(ps[1..]);
        assert forall k :: 1 <= k < |ps| ==> ps[k] == ps[1..][k - 1];
      } else {
        assert forall k :: 1 <= k < |ps| ==> ps[k] == ps[1..][k - 1];
      }
    }
  }

  lemma {:induction false} NonEmptyAppend(xs: seq<string>, ys: seq<string>)
    ensures NonEmpty(xs + ys) == NonEmpty(xs) + NonEmpty(ys)
  {
    if xs != [] {
      assert (xs + ys)[0] == xs[0];
      assert (xs + ys)[1..] == xs[1..] + ys;
      NonEmptyAppend(xs[1..], ys);
    } else {
      assert xs + ys == ys;
    }
  }

  /** `split_from`: split the line at every non-alphabetic character and keep the
      non-empty pieces. Every token is non-empty and alphabetic (no digit or punctuation
      ever appears in one), and the tokens joined in order are the line with every
      non-alphabetic character removed. */
  function SplitFrom(s: string): (tokens: seq<string>)
    ensures forall k :: 0 <= k < |tokens| ==> tokens[k] != [] && AllAlpha(tokens[k])
    ensures Concat(tokens) == Letters(s)
  {
    PiecesSpec(s);
    NonEmptySpec(Pieces(s));
    NonEmpty(Pieces(s))
  }

  /** A separator cuts the line in two: the pieces before it, then the pieces after it. */
  lemma {:induction false} PiecesSeparator(a: string, c: char, b: string)
    requires !IsAlpha(c)
    ensures Pieces(a + [c] + b) == Pieces(a) + Pieces(b)
    decreases |a|
  {
    if a == [] {
      assert [c] + b == a + [c] + b;
      assert ([c] + b)[1..] == b;
    } else {
      var s := a + [c] + b;
      assert s[0] == a[0];
      assert s[1..] == a[1..] + [c] + b;
      PiecesSeparator(a[1..], c, b);
    }
  }

  lemma {:induction false} PiecesRun(t: string)
    requires AllAlpha(t)
    ensures Pieces(t) == [t]
    decreases |t|
  {
    if t != [] {
      PiecesRun(t[1..]);
      assert [t[0]] + t[1..] == t;
    }
  }

  /** A non-alphabetic character separates tokens: nothing on one side joins anything on
      the other. */
  lemma SplitFromSeparator(a: string, c: char, b: string)
    requires !IsAlpha(c)
    ensures SplitFrom(a + [c] + b) == SplitFrom(a) + SplitFrom(b)
  {
    PiecesSeparator(a, c, b);
    NonEmptyAppend(Pieces(a), Pieces(b));
  }

  /** A non-empty run of letters is one token, never split further. */
  lemma SplitFromRun(t: string)
    requires t != [] && AllAlpha(t)
    ensures SplitFrom(t) == [t]
  {
    PiecesRun(t);
    assert [t][1..] == [];
  }

  lemma SplitFromNothing()
    ensures SplitFrom([]) == []
  {
    assert Pieces([]) == [[]];
  }

  /** A separator at either end of the line adds no token. */
  lemma SplitFromEdges(c: char, s: string)
    requires !IsAlpha(c)
    ensures SplitFrom(s + [c]) == SplitFrom(s)
    ensures SplitFrom([c] + s) == SplitFrom(s)
  {
    SplitFromNothing();
    assert s + [c] == s + [c] + [];
    SplitFromSeparator(s, c, []);
    assert [c] + s == [] + [c] + s;
    SplitFromSeparator([], c, s);
  }

  /** A line whose last character is a separator adds its tokens to those of whatever
      follows, with nothing joined across the boundary. */
  lemma SplitFromAfterSeparator(a: string, u: string)
    requires a != [] && !IsAlpha(a[|a| - 1])
    ensures SplitFrom(a + u) == SplitFrom(a) + SplitFrom(u)
  {
    var a', c := a[..|a| - 1], a[|a| - 1];
    assert a + u == a' + [c] + u;
    SplitFromSeparator(a', c, u);
    assert a == a' + [c];
    SplitFromEdges(c, a');
  }

  lemma SplitFromRunBefore(t: string, b: string)
    requires t != [] && AllAlpha(t)
    requires b == [] || !IsAlpha(b[0])
    ensures SplitFrom(t + b) == [t] + SplitFrom(b)
  {
    SplitFromRun(t);
    if b == [] {
      assert t + b == t;
      SplitFromNothing();
    } else {
      assert t + b == t + [b[0]] + b[1..];
      SplitFromSeparator(t, b[0], b[1..]);
      assert b == [b[0]] + b[1..];
      SplitFromEdges(b[0], b[1..]);
    }
  }

  /** Tokens are maximal runs: a run of letters with a non-letter (or the end of the line)
      on each side is a token of its own, between the tokens of what precedes it and the
      tokens of what follows it. */
  lemma SplitFromMaximalRun(a: string, t: string, b: string)
    requires t != [] && AllAlpha(t)
    requires a == [] || !IsAlpha(a[|a| - 1])
    requires b == [] || !IsAlpha(b[0])
    ensures SplitFrom(a + t + b) == SplitFrom(a) + [t] + SplitFrom(b)
  {
    if a == [] {
      calc {
        SplitFrom(a + t + b);
        { assert a + t + b == t + b; }
        SplitFrom(t + b);
        { SplitFromRunBefore(t, b); }
        [t] + SplitFrom(b);
        { SplitFromNothing(); }
        SplitFrom(a) + [t] + SplitFrom(b);
      }
    } else {
      calc {
        SplitFrom(a + t + b);
        { assert a + t + b == a + (t + b); }
        SplitFrom(a + (t + b));
        { SplitFromAfterSeparator(a, t + b); }
        SplitFrom(a) + SplitFrom(t + b);
        { SplitFromRunBefore(t, b); }
        SplitFrom(a) + [t] + SplitFrom(b);
      }
    }
  }

  lemma {:induction false} LettersEmpty(s: string)
    ensures Letters(s) == [] <==> forall i :: 0 <= i < |s| ==> !IsAlpha(s[i])
  {
    if s != [] {
      LettersEmpty(s[1..]);
      assert forall i :: 1 <= i < |s| ==> s[i] == s[1..][i - 1];
    }
  }

  /** The line yields no token exactly when it holds no letter; the caller then stops
      with "No file types specified." */
  lemma SplitFromEmptyIff(s: string)
    ensures SplitFrom(s) == [] <==> forall i :: 0 <= i < |s| ==> !IsAlpha(s[i])
  {
    LettersEmpty(s);
    var tokens := SplitFrom(s);
    if tokens != [] {
      assert |Concat(tokens)| >= |tokens[0]| > 0;
    }
  }

  /** The single-extension example shown above the "Convert from:" prompt. */
  lemma SplitFromSingleExample()
    ensures SplitFrom("png") == ["png"]
  {
    SplitFromRun("png");
  }

  /** The comma-separated example shown above the "Convert from:" prompt. */
  lemma SplitFromListExample()
    ensures SplitFrom("jpg,png") == ["jpg", "png"]
  {
    calc {
      SplitFrom("jpg,png");
      { assert "jpg,png" == "jpg" + [','] + "png"; }
      SplitFrom("jpg" + [','] + "png");
      { SplitFromSeparator("jpg", ',', "png"); }
      SplitFrom("jpg") + SplitFrom("png");
      { SplitFromRun("jpg"); SplitFromRun("png"); }
      ["jpg", "png"];
    }
  }

  /** A digit is a separator, so it never appears in a token. */
  lemma SplitFromDigitExample()
    ensures SplitFrom("mp3") == ["mp"]
  {
    assert "mp3" == "mp" + ['3'];
    SplitFromEdges('3', "mp");
    SplitFromRun("mp");
  }
}
