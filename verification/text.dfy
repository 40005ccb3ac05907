/** The System.String operations the source relies on, over `seq<char>`:
    Split on one character, Trim, StartsWith/EndsWith/Contains (ordinal). */
module Text {

  /** System.Char.IsWhiteSpace: the Unicode space, line and paragraph
      separators, plus U+0009..U+000D and U+0085. */
  predicate IsWhiteSpace(c: char)
  {
    var u := c as int;
    || u == 0x20 || (0x09 <= u <= 0x0D) || u == 0x85 || u == 0xA0
    || u == 0x1680 || (0x2000 <= u <= 0x200A) || u == 0x2028 || u == 0x2029
    || u == 0x202F || u == 0x205F || u == 0x3000
  }

  /** Number of leading characters of `s` satisfying `p`. */
  function LeadingCount(s: string, p: char -> bool): (n: nat)
    ensures n <= |s|
    ensures forall i :: 0 <= i < n ==> p(s[i])
    ensures n < |s| ==> !p(s[n])
  {
    if |s| == 0 || !p(s[0]) then 0 else 1 + LeadingCount(s[1..], p)
  }

  /** Number of trailing characters of `s` satisfying `p`. */
  function TrailingCount(s: string, p: char -> bool): (n: nat)
    ensures n <= |s|
    ensures forall i :: |s| - n <= i < |s| ==> p(s[i])
    ensures n < |s| ==> !p(s[|s| - n - 1])
  {
    if |s| == 0 || !p(s[|s| - 1]) then 0 else 1 + TrailingCount(s[..|s| - 1], p)
  }

  /** `r` sits at offset `a` of `s` and everything of `s` around it satisfies `p`. */
  predicate Framed(s: string, r: string, a: int, p: char -> bool)
  {
    && 0 <= a <= |s| - |r| && s[a..a + |r|] == r
    && (forall i :: 0 <= i < a ==> p(s[i]))
    && (forall i :: a + |r| <= i < |s| ==> p(s[i]))
  }

  /** `s` with every leading and trailing character satisfying `p` removed. */
  function Strip(s: string, p: char -> bool): (r: string)
    ensures |r| > 0 ==> !p(r[0]) && !p(r[|r| - 1])
    ensures exists a :: Framed(s, r, a, p)
  {
    var a := LeadingCount(s, p);
    var t := s[a..];
    var r := t[..|t| - TrailingCount(t, p)];
    assert Framed(s, r, a, p);
    r
  }

  /** A string whose ends do not satisfy `p` is left as it is. */
  lemma StripUnpadded(s: string, p: char -> bool)
    requires |s| > 0 && !p(s[0]) && !p(s[|s| - 1])
    ensures Strip(s, p) == s
  {
    assert LeadingCount(s, p) == 0;
    assert s[0..] == s;
    assert TrailingCount(s, p) == 0;
  }

  /** A framed part whose ends do not satisfy `p` is determined by the
      string: two such parts are equal. */
  lemma FramedUnique(s: string, r1: string, a1: int, r2: string, a2: int, p: char -> bool)
    requires Framed(s, r1, a1, p) && (|r1| > 0 ==> !p(r1[0]) && !p(r1[|r1| - 1]))
    requires Framed(s, r2, a2, p) && (|r2| > 0 ==> !p(r2[0]) && !p(r2[|r2| - 1]))
    ensures r1 == r2
  {
    if |r1| > 0 && |r2| > 0 {
      assert s[a1] == r1[0] && s[a2] == r2[0];
      assert a1 == a2;
      var e1, e2 := a1 + |r1| - 1, a2 + |r2| - 1;
      assert s[e1] == r1[|r1| - 1] && s[e2] == r2[|r2| - 1];
      assert e1 == e2;
    }
  }

  /** Stripping yields any framed part whose ends do not satisfy `p`. */
  lemma StripFramed(s: string, r: string, a: int, p: char -> bool)
    requires Framed(s, r, a, p) && (|r| > 0 ==> !p(r[0]) && !p(r[|r| - 1]))
    ensures Strip(s, p) == r
  {
    var t := Strip(s, p);
    var b :| Framed(s, t, b, p);
    FramedUnique(s, t, b, r, a, p);
  }

  /** System.String.Trim(): strips white space at both ends. */
  function Trim(s: string): string
  {
    Strip(s, IsWhiteSpace)
  }

  /** Trimming a trimmed string changes nothing. */
  lemma TrimIdempotent(s: string)
    ensures Trim(Trim(s)) == Trim(s)
  {
    var t := Trim(s);
    if |t| > 0 {
      StripUnpadded(t, IsWhiteSpace);
    }
  }

  /** Number of occurrences of `c` in `s`. */
  function Count(s: string, c: char): nat
  {
    if |s| == 0 then 0 else (if s[0] == c then 1 else 0) + Count(s[1..], c)
  }

  /** System.String.Split(char): the maximal pieces between separators, in order;
      `n` separators give `n + 1` pieces, so the empty string gives [""]. */
  function Split(s: string, sep: char): (parts: seq<string>)
    ensures |parts| == Count(s, sep) + 1
    ensures forall i :: 0 <= i < |parts| ==> sep !in parts[i]
  {
    if |s| == 0 then [""]
    else
      var rest := Split(s[1..], sep);
      if s[0] == sep then [""] + rest
      else [[s[0]] + rest[0]] + rest[1..]
  }

  /** System.String.Join(char, pieces): the pieces with `sep` between neighbours. */
  function Join(parts: seq<string>, sep: char): string
    requires |parts| > 0
  {
    if |parts| == 1 then parts[0] else parts[0] + [sep] + Join(parts[1..], sep)
  }

  /** Joining the pieces of a split gives back the original string. */
  lemma {:induction false} JoinSplit(s: string, sep: char)
    ensures Join(Split(s, sep), sep) == s
  {
    if |s| > 0 {
      var rest := Split(s[1..], sep);
      JoinSplit(s[1..], sep);
      if s[0] == sep {
        assert Split(s, sep) == [""] + rest;
        assert ([""] + rest)[1..] == rest;
        assert s == [sep] + s[1..];
      } else {
        var parts := Split(s, sep);
        assert parts == [[s[0]] + rest[0]] + rest[1..];
        if |rest| == 1 {
          assert s == [s[0]] + s[1..];
        } else {
          assert parts[1..] == rest[1..];
          assert Join(rest, sep) == rest[0] + [sep] + Join(rest[1..], sep);
          assert s == [s[0]] + s[1..];
        }
      }
    }
  }

  /** A string free of the separator splits into itself. */
  lemma {:induction false} SplitNoSep(p: string, sep: char)
    requires sep !in p
    ensures Split(p, sep) == [p]
  {
    if |p| > 0 {
      SplitNoSep(p[1..], sep);
      assert [p[0]] + p[1..] == p;
    }
  }

  /** A separator-free head followed by a separator splits off as the first piece. */
  lemma {:induction false} SplitHead(p: string, sep: char, t: string)
    requires sep !in p
    ensures Split(p + [sep] + t, sep) == [p] + Split(t, sep)
  {
    var s := p + [sep] + t;
    if |p| == 0 {
      assert s[1..] == t;
    } else {
      assert s[1..] == p[1..] + [sep] + t;
      SplitHead(p[1..], sep, t);
      assert [p[0]] + p[1..] == p;
    }
  }

  /** Splitting a join of separator-free pieces gives back the pieces. */
  lemma {:induction false} SplitJoin(parts: seq<string>, sep: char)
    requires |parts| > 0
    requires forall i :: 0 <= i < |parts| ==> sep !in parts[i]
    ensures Split(Join(parts, sep), sep) == parts
  {
    if |parts| == 1 {
      SplitNoSep(parts[0], sep);
    } else {
      SplitJoin(parts[1..], sep);
      SplitHead(parts[0], sep, Join(parts[1..], sep));
      assert [parts[0]] + parts[1..] == parts;
    }
  }

  /** System.String.StartsWith with ordinal comparison. */
  predicate StartsWith(s: string, prefix: string)
  {
    |prefix| <= |s| && s[..|prefix|] == prefix
  }

  /** System.String.EndsWith with ordinal comparison. */
  predicate EndsWith(s: string, suffix: string)
  {
    |suffix| <= |s| && s[|s| - |suffix|..] == suffix
  }

  /** `sub` occurs in `s` starting at position `i`. */
  predicate OccursAt(s: string, sub: string, i: int)
  {
    0 <= i <= |s| - |sub| && s[i..i + |sub|] == sub
  }

  /** System.String.Contains(string) (ordinal): some position of `s` starts a copy of `sub`. */
  function Contains(s: string, sub: string): (b: bool)
    ensures b <==> exists i :: OccursAt(s, sub, i)
  {
    if StartsWith(s, sub) then
      assert OccursAt(s, sub, 0);
      true
    else if |s| == 0 then false
    else
      var b := Contains(s[1..], sub);
      assert b ==> exists i :: OccursAt(s, sub, i) by {
        if b {
          var j :| OccursAt(s[1..], sub, j);
          assert s[j + 1..j + 1 + |sub|] == s[1..][j..j + |sub|];
          assert OccursAt(s, sub, j + 1);
        }
      }
      assert (exists i :: OccursAt(s, sub, i)) ==> b by {
        if exists i :: OccursAt(s, sub, i) {
          var i :| OccursAt(s, sub, i);
          assert i != 0;
          assert s[1..][i - 1..i - 1 + |sub|] == s[i..i + |sub|];
          assert OccursAt(s[1..], sub, i - 1);
        }
      }
      b
  }
}
