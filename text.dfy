/** Character classes and `str::trim`, as the front end uses them. */
module Text {

  /** Rust's `char::is_whitespace`: the Unicode White_Space property, a short fixed list. */
  predicate IsWhitespace(c: char) {
    var n := c as int;
    (0x09 <= n <= 0x0D) || n == 0x20 || n == 0x85 || n == 0xA0 || n == 0x1680
    || (0x2000 <= n <= 0x200A) || n == 0x2028 || n == 0x2029 || n == 0x202F
    || n == 0x205F || n == 0x3000
  }

  /** Rust's `char::is_alphabetic`, exact for characters below U+0100 (ASCII and Latin-1
      letters, and the alphabetic signs ª, µ, º); every character above counts as not
      alphabetic. The general tokenizer lemmas hold whatever it classifies as a letter;
      only the three examples depend on the table. */
  predicate IsAlpha(c: char) {
    var n := c as int;
    (0x41 <= n <= 0x5A) || (0x61 <= n <= 0x7A) || n == 0xAA || n == 0xB5 || n == 0xBA
    || (0xC0 <= n <= 0xD6) || (0xD8 <= n <= 0xF6) || (0xF8 <= n <= 0xFF)
  }

  /** No whitespace character is alphabetic, so trimming never removes a letter. */
  lemma WhitespaceNotAlpha(c: char)
    ensures IsWhitespace(c) ==> !IsAlpha(c)
  {
  }

  predicate AllWhitespace(s: string) {
    forall i :: 0 <= i < |s| ==> IsWhitespace(s[i])
  }

  /** Neither end of `s` is whitespace. */
  predicate Unpadded(s: string) {
    s == [] || (!IsWhitespace(s[0]) && !IsWhitespace(s[|s| - 1]))
  }

  /** `str::trim_start`: drops the leading whitespace, keeping a suffix of `s`. */
  function TrimStart(s: string): string
    decreases |s|
  {
    if s != [] && IsWhitespace(s[0]) then TrimStart(s[1..]) else s
  }

  /** `str::trim_end`: drops the trailing whitespace, keeping a prefix of `s`. */
  function TrimEnd(s: string): string
    decreases |s|
  {
    if s != [] && IsWhitespace(s[|s| - 1]) then TrimEnd(s[..|s| - 1]) else s
  }

  /** `str::trim`: the text between the leading and the trailing whitespace. */
  function Trim(s: string): string {
    TrimEnd(TrimStart(s))
  }

  /** What `TrimStart` keeps is a suffix that does not start with whitespace, and all
      it drops is whitespace. */
  lemma {:induction false} TrimStartSpec(s: string)
    ensures var r := TrimStart(s);
      |r| <= |s| && r == s[|s| - |r|..] && AllWhitespace(s[..|s| - |r|])
      && (r == [] || !IsWhitespace(r[0]))
    decreases |s|
  {
    if s != [] && IsWhitespace(s[0]) {
      TrimStartSpec(s[1..]);
      var r := TrimStart(s);
      assert s[1..][|s| - 1 - |r|..] == s[|s| - |r|..];
      assert forall i :: 1 <= i < |s| - |r| ==> s[i] == s[1..][..|s| - 1 - |r|][i - 1];
    }
  }

  /** What `TrimEnd` keeps is a prefix that does not end with whitespace, and all it
      drops is whitespace. */
  lemma {:induction false} TrimEndSpec(s: string)
    ensures var r := TrimEnd(s);
      |r| <= |s| && r == s[..|r|] && AllWhitespace(s[|r|..])
      && (r == [] || !IsWhitespace(r[|r| - 1]))
    decreases |s|
  {
    if s != [] && IsWhitespace(s[|s| - 1]) {
      TrimEndSpec(s[..|s| - 1]);
      var r := TrimEnd(s);
      assert s[..|s| - 1][..|r|] == s[..|r|];
      assert forall i :: |r| <= i < |s| - 1 ==> s[i] == s[..|s| - 1][|r|..][i - |r|];
    }
  }

  /** `Trim` leaves no whitespace at either end, and all it removes is whitespace from
      the two ends: it is a prefix of `TrimStart(s)`, itself a suffix of `s`, and what
      lies before and after it in `s` is whitespace. */
  lemma TrimSpec(s: string)
    ensures |Trim(s)| <= |TrimStart(s)| <= |s|
    ensures Unpadded(Trim(s))
    ensures TrimStart(s) == s[|s| - |TrimStart(s)|..] && Trim(s) == TrimStart(s)[..|Trim(s)|]
    ensures AllWhitespace(s[..|s| - |TrimStart(s)|])
    ensures AllWhitespace(TrimStart(s)[|Trim(s)|..])
  {
    TrimStartSpec(s);
    TrimEndSpec(TrimStart(s));
    EndsUnpadded(TrimStart(s), Trim(s));
  }

  /** A prefix of `t` that ends before whitespace, where `t` starts after whitespace,
      has whitespace at neither end. */
  lemma EndsUnpadded(t: string, r: string)
    requires t == [] || !IsWhitespace(t[0])
    requires |r| <= |t| && r == t[..|r|] && (r == [] || !IsWhitespace(r[|r| - 1]))
    ensures Unpadded(r)
  {
    if r != [] {
      assert r[0] == t[0];
    }
  }

  /** The line is its leading whitespace, then `line.trim()`, then its trailing
      whitespace, in that order. */
  lemma TrimSplitsLine(s: string)
    ensures |Trim(s)| <= |TrimStart(s)| <= |s|
    ensures s == s[..|s| - |TrimStart(s)|] + Trim(s) + TrimStart(s)[|Trim(s)|..]
  {
    TrimSpec(s);
    TrimDecomposes(s, TrimStart(s), Trim(s));
  }

  lemma TrimDecomposes(s: string, t: string, r: string)
    requires |t| <= |s| && t == s[|s| - |t|..]
    requires |r| <= |t| && r == t[..|r|]
    ensures s == s[..|s| - |t|] + r + t[|r|..]
  {
    assert s == s[..|s| - |t|] + t;
    assert t == r + t[|r|..];
  }

  lemma {:induction false} TrimStartPast(a: string, t: string)
    requires AllWhitespace(a)
    requires t == [] || !IsWhitespace(t[0])
    ensures TrimStart(a + t) == t
    decreases |a|
  {
    if a != [] {
      assert (a + t)[1..] == a[1..] + t;
      TrimStartPast(a[1..], t);
    }
  }

  lemma {:induction false} TrimEndPast(t: string, b: string)
    requires AllWhitespace(b)
    requires t == [] || !IsWhitespace(t[|t| - 1])
    ensures TrimEnd(t + b) == t
    decreases |b|
  {
    if b != [] {
      assert (t + b)[..|t + b| - 1] == t + b[..|b| - 1];
      TrimEndPast(t, b[..|b| - 1]);
    }
  }

  /** Trim gives back exactly the middle of any whitespace + unpadded text + whitespace
      decomposition; with `Trim`'s own contract this determines it completely. */
  lemma TrimSurrounded(a: string, m: string, b: string)
    requires AllWhitespace(a) && AllWhitespace(b) && Unpadded(m)
    ensures Trim(a + m + b) == m
  {
    if m == [] {
      assert a + m + b == (a + b) + [];
      assert AllWhitespace(a + b) by {
        forall i | 0 <= i < |a + b| ensures IsWhitespace((a + b)[i]) {
          if i < |a| { assert (a + b)[i] == a[i]; } else { assert (a + b)[i] == b[i - |a|]; }
        }
      }
      TrimStartPast(a + b, []);
    } else {
      assert a + m + b == a + (m + b);
      TrimStartPast(a, m + b);
      TrimEndPast(m, b);
    }
  }
}
