/** removeExtraSpaces: every run of the space character ' ' becomes one
    space. Go ranges over the runes of the string and appends byte(v) for each
    rune it keeps. Here the input is the sequence of its runes, and the output
    is a sequence of bytes, each written as the character with that code.
    Only for an ASCII rune is that one byte the rune's UTF-8 encoding: a rune
    from U+0080 to U+00FF becomes a lone byte that is not valid UTF-8, and a
    higher rune keeps only its low eight bits. */
module SpaceCollapse {

  /** No two neighbouring characters of t are both ' '. */
  predicate NoDoubleSpace(t: string)
  {
    forall i :: 0 <= i < |t| - 1 ==> !(t[i] == ' ' && t[i + 1] == ' ')
  }

  /** Every character of t is ASCII, so its UTF-8 encoding is one byte with
      the same code. */
  predicate IsAscii(t: string)
  {
    forall c :: c in t ==> c as int < 0x80
  }

  /** The rune-level collapse: a space that directly follows a space is
      dropped, every other character is kept whole and in place. The last
      character always survives, so a trailing run leaves one space. */
  function CollapseRuns(s: string): (r: string)
    ensures |r| <= |s|
    ensures NoDoubleSpace(r)
    ensures |s| > 0 ==> |r| > 0 && r[|r| - 1] == s[|s| - 1]
    decreases |s|
  {
    if |s| == 0 then []
    else
      var p, c := s[..|s| - 1], s[|s| - 1];
      if c == ' ' && |p| > 0 && p[|p| - 1] == ' ' then CollapseRuns(p)
      else CollapseRuns(p) + [c]
  }

  /** Go's byte(v) on a rune: only the low eight bits survive. */
  function Low8(c: char): (b: char)
    ensures b as int < 0x100
    ensures c as int < 0x100 ==> b == c
  {
    (c as int % 0x100) as char
  }

  /** The bytes appended for a sequence of kept runes. */
  function ToBytes(t: string): string
  {
    seq(|t|, i requires 0 <= i < |t| => Low8(t[i]))
  }

  /** The loop of removeExtraSpaces: prevIsSpace remembers whether the last
      rune seen was ' '; a space seen while it is set is skipped, every other
      rune is appended as a byte. */
  method RemoveExtraSpaces(s: string) returns (n: string)
    ensures n == ToBytes(CollapseRuns(s))
    ensures |n| <= |s|
  {
    var prevIsSpace := false;
    n := [];
    for i := 0 to |s|
      invariant n == ToBytes(CollapseRuns(s[..i]))
      invariant prevIsSpace <==> i > 0 && s[i - 1] == ' '
    {
      var v := s[i];
      assert s[..i + 1][..i] == s[..i];
      if prevIsSpace && v == ' ' {
        continue;
      }
      if v == ' ' {
        prevIsSpace := true;
      } else {
        prevIsSpace := false;
      }
      n := n + [Low8(v)];
    }
    assert s[..|s|] == s;
  }

  /** On ASCII text the output of removeExtraSpaces is the rune-level collapse:
      no two neighbouring spaces, and every non-space character kept in order. */
  lemma AsciiOutput(s: string)
    requires IsAscii(s)
    ensures var n := ToBytes(CollapseRuns(s));
      n == CollapseRuns(s) && NoDoubleSpace(n) && DropSpaces(n) == DropSpaces(s)
  {
    AsciiCollapse(s);
    CollapseKeepsNonSpaces(s);
  }

  /** Collapsing keeps ASCII text ASCII, and on it the byte conversion
      changes nothing. */
  lemma {:induction false} AsciiCollapse(s: string)
    requires IsAscii(s)
    ensures IsAscii(CollapseRuns(s))
    ensures ToBytes(CollapseRuns(s)) == CollapseRuns(s)
    decreases |s|
  {
    if |s| > 0 {
      var p := s[..|s| - 1];
      assert forall c :: c in p ==> c in s;
      AsciiCollapse(p);
      var r := CollapseRuns(s);
      assert forall c :: c in r ==> c in CollapseRuns(p) || c == s[|s| - 1];
      assert s[|s| - 1] in s;
      assert IsAscii(r);
      forall i | 0 <= i < |r|
        ensures ToBytes(r)[i] == r[i]
      {
        assert r[i] in r;
        assert Low8(r[i]) == r[i];
      }
    }
  }

  /** The first character survives, so a leading run leaves one space. */
  lemma {:induction false} CollapseKeepsFirst(s: string)
    requires |s| > 0
    ensures |CollapseRuns(s)| > 0 && CollapseRuns(s)[0] == s[0]
    decreases |s|
  {
    var p := s[..|s| - 1];
    if |p| > 0 {
      CollapseKeepsFirst(p);
      assert p[0] == s[0];
    }
  }

  /** A leading run of spaces and a trailing run of spaces each become
      exactly one space, never none. */
  lemma EdgeRunsKeepOneSpace(s: string)
    requires |s| > 0
    ensures var r := CollapseRuns(s);
      && (s[0] == ' ' ==> r[0] == ' ' && (|r| == 1 || r[1] != ' '))
      && (s[|s| - 1] == ' ' ==> r[|r| - 1] == ' ' && (|r| == 1 || r[|r| - 2] != ' '))
  {
    CollapseKeepsFirst(s);
  }

  /** Text without doubled spaces is exactly the text collapsing leaves alone. */
  lemma {:induction false} CollapseFixedPoint(s: string)
    ensures CollapseRuns(s) == s <==> NoDoubleSpace(s)
    decreases |s|
  {
    if |s| > 0 && NoDoubleSpace(s) {
      var p := s[..|s| - 1];
      assert NoDoubleSpace(p) by {
        forall i | 0 <= i < |p| - 1 ensures !(p[i] == ' ' && p[i + 1] == ' ') {
          assert p[i] == s[i] && p[i + 1] == s[i + 1];
        }
      }
      CollapseFixedPoint(p);
      if |p| > 0 {
        assert !(s[|s| - 2] == ' ' && s[|s| - 1] == ' ');
      }
      assert p + [s[|s| - 1]] == s;
    }
  }

  /** Collapsing twice is collapsing once. */
  lemma CollapseIdempotent(s: string)
    ensures CollapseRuns(CollapseRuns(s)) == CollapseRuns(s)
  {
    CollapseFixedPoint(CollapseRuns(s));
  }

  /** The text with every space removed. */
  function DropSpaces(t: string): string
    decreases |t|
  {
    if |t| == 0 then []
    else DropSpaces(t[..|t| - 1]) + (if t[|t| - 1] == ' ' then [] else [t[|t| - 1]])
  }

  lemma DropSpacesSnoc(t: string, c: char)
    ensures DropSpaces(t + [c]) == DropSpaces(t) + (if c == ' ' then [] else [c])
  {
    assert (t + [c])[..|t|] == t;
  }

  /** Only spaces are removed: the non-space characters are kept, in order. */
  lemma {:induction false} CollapseKeepsNonSpaces(s: string)
    ensures DropSpaces(CollapseRuns(s)) == DropSpaces(s)
    decreases |s|
  {
    if |s| > 0 {
      var p, c := s[..|s| - 1], s[|s| - 1];
      CollapseKeepsNonSpaces(p);
      assert s == p + [c];
      DropSpacesSnoc(p, c);
      if !(c == ' ' && |p| > 0 && p[|p| - 1] == ' ') {
        DropSpacesSnoc(CollapseRuns(p), c);
      }
    }
  }

  /** n spaces. */
  function Spaces(n: nat): (t: string)
  {
    seq(n, _ => ' ')
  }

  /** A run of spaces after a non-space leaves one space, and a word without
      spaces after that is kept as it is. */
  lemma {:induction false} CollapseGapThenWord(a: string, n: nat, w: string)
    requires |a| > 0 && a[|a| - 1] != ' ' && n >= 1
    requires ' ' !in w
    ensures CollapseRuns(a + Spaces(n) + w) == CollapseRuns(a) + [' '] + w
    decreases n, |w|
  {
    if |w| > 0 {
      var u := a + Spaces(n) + w;
      assert u[..|u| - 1] == a + Spaces(n) + w[..|w| - 1];
      assert w[|w| - 1] != ' ';
      CollapseGapThenWord(a, n, w[..|w| - 1]);
      assert CollapseRuns(a) + [' '] + w[..|w| - 1] + [w[|w| - 1]] == CollapseRuns(a) + [' '] + w;
    } else if n == 1 {
      assert a + Spaces(1) + w == a + [' '];
      assert (a + [' '])[..|a|] == a;
    } else {
      CollapseGapThenWord(a, n - 1, w);
      var u := a + Spaces(n) + w;
      assert u[..|u| - 1] == a + Spaces(n - 1) + w;
    }
  }

  lemma AsciiConcat(a: string, b: string)
    ensures IsAscii(a + b) <==> IsAscii(a) && IsAscii(b)
  {
    assert forall c :: c in a + b <==> c in a || c in b;
  }

  /** The code as written: the rune U+0120 truncates to the byte 0x20, a
      space, without setting prevIsSpace, so the space after it is kept and
      the output holds two neighbouring spaces. */
  lemma TruncatedRuneDoublesSpace()
    ensures var s := ['\U{0120}', ' '];
      NoDoubleSpace(s) && ToBytes(CollapseRuns(s)) == "  " && !NoDoubleSpace(ToBytes(CollapseRuns(s)))
  {
    var s := ['\U{0120}', ' '];
    assert s[..1] == ['\U{0120}'];
    assert CollapseRuns(s[..1]) == ['\U{0120}'];
    assert CollapseRuns(s) == s;
    assert Low8('\U{0120}') == ' ';
    var b := ToBytes(CollapseRuns(s));
    assert b[0] == ' ' && b[1] == ' ';
  }

  /** The number of bytes in the UTF-8 encoding of c. */
  function Utf8Length(c: char): (k: nat)
    ensures 1 <= k <= 4
  {
    if c as int < 0x80 then 1
    else if c as int < 0x800 then 2
    else if c as int < 0x10000 then 3
    else 4
  }

  /** The code as written: a rune from U+0080 to U+00FF takes two bytes in the
      input but comes out as the single byte with its code, a byte of 0x80 or
      more standing alone, which is not UTF-8 for any rune. */
  lemma LatinRuneReencoded(c: char)
    requires 0x80 <= c as int < 0x100
    ensures Utf8Length(c) == 2
    ensures ToBytes(CollapseRuns([c])) == [c] && c as int >= 0x80
  {
    assert [c][..0] == [];
  }
}
