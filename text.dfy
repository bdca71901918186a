/** Python's `str.split(sep)`, `sep.join(parts)` and `str.strip()` on
    strings of code points. */
module Text {

  /** `str.split(sep)` with an explicit one-character separator: every
      separator ends a piece, so empty pieces are kept. */
  function Split(s: string, sep: char): (parts: seq<string>)
    ensures parts != []
    ensures forall i :: 0 <= i < |parts| ==> sep !in parts[i]
  {
    if s == [] then [[]]
    else
      var init, ch := s[..|s| - 1], s[|s| - 1];
      Extended(Split(init, sep), ch, sep)
  }

  /** There is one piece more than there are separators. */
  lemma {:induction false} SplitCount(s: string, sep: char)
    ensures |Split(s, sep)| == multiset(s)[sep] + 1
  {
    if s != [] {
      var init, ch := s[..|s| - 1], s[|s| - 1];
      assert s == init + [ch];
      SplitCount(init, sep);
    }
  }

  /** `sep.join(parts)`: the pieces with one separator between each two,
      so the text is as long as the pieces together plus the separators. */
  function Join(parts: seq<string>, sep: char): (r: string)
    ensures parts == [] ==> r == []
    ensures parts != [] ==> |r| == TotalLength(parts) + |parts| - 1
    ensures multiset(r)[sep] == if parts == [] then 0 else SeparatorsIn(parts, sep) + |parts| - 1
  {
    if |parts| == 0 then []
    else if |parts| == 1 then parts[0]
    else Join(parts[..|parts| - 1], sep) + [sep] + parts[|parts| - 1]
  }

  /** How often `sep` occurs in the pieces together. */
  function SeparatorsIn(parts: seq<string>, sep: char): nat {
    if parts == [] then 0 else SeparatorsIn(parts[..|parts| - 1], sep) + multiset(parts[|parts| - 1])[sep]
  }

  function TotalLength(parts: seq<string>): nat {
    if parts == [] then 0 else TotalLength(parts[..|parts| - 1]) + |parts[|parts| - 1]|
  }

  /** Joining the pieces of a split gives the text back. */
  lemma {:induction false} JoinSplit(s: string, sep: char)
    ensures Join(Split(s, sep), sep) == s
  {
    if s != [] {
      var init, ch := s[..|s| - 1], s[|s| - 1];
      assert s == init + [ch];
      var p := Split(init, sep);
      JoinSplit(init, sep);
      assert Split(s, sep) == Extended(p, ch, sep);
      if ch == sep {
        assert (p + [[]])[..|p|] == p;
      } else {
        var q, last := p[..|p| - 1], p[|p| - 1];
        var r := q + [last + [ch]];
        assert r[..|q|] == q;
        if |p| > 1 {
          assert Join(p, sep) == Join(q, sep) + [sep] + last;
        }
      }
    }
  }

  lemma {:induction false} SplitWithoutSeparator(x: string, sep: char)
    requires sep !in x
    ensures Split(x, sep) == [x]
  {
    if x != [] {
      assert x == x[..|x| - 1] + [x[|x| - 1]];
      SplitWithoutSeparator(x[..|x| - 1], sep);
      assert Split(x, sep) == Extended(Split(x[..|x| - 1], sep), x[|x| - 1], sep);
    }
  }

  /** Splitting at a separator splits the text on either side of it on
      its own: `(a + sep + b).split(sep) == a.split(sep) + b.split(sep)`. */
  lemma {:induction false} SplitConcat(a: string, b: string, sep: char)
    ensures Split(a + [sep] + b, sep) == Split(a, sep) + Split(b, sep)
  {
    if b == [] {
      assert a + [sep] + b == a + [sep];
      assert (a + [sep])[..|a|] == a;
    } else {
      var init, ch := b[..|b| - 1], b[|b| - 1];
      var whole := a + [sep] + b;
      var p, q := Split(a + [sep] + init, sep), Split(init, sep);
      assert p == Split(a, sep) + q by {
        SplitConcat(a, init, sep);
      }
      assert Split(whole, sep) == Extended(p, ch, sep) by {
        assert whole[..|whole| - 1] == a + [sep] + init && whole[|whole| - 1] == ch;
      }
      assert Split(b, sep) == Extended(q, ch, sep);
      ExtendedAppend(Split(a, sep), q, ch, sep);
    }
  }

  /** The pieces so far after one more character: a separator starts a
      new piece, any other character ends the last one. */
  function Extended(p: seq<string>, ch: char, sep: char): seq<string>
    requires p != []
  {
    if ch == sep then p + [[]] else p[..|p| - 1] + [p[|p| - 1] + [ch]]
  }

  lemma ExtendedAppend(a: seq<string>, q: seq<string>, ch: char, sep: char)
    requires q != []
    ensures Extended(a + q, ch, sep) == a + Extended(q, ch, sep)
  {
    if ch != sep {
      assert (a + q)[..|a + q| - 1] == a + q[..|q| - 1];
    }
  }

  /** The pieces of every part's own split, part after part. */
  function Tokens(parts: seq<string>, sep: char): (r: seq<string>)
    ensures |r| == SeparatorsIn(parts, sep) + |parts|
  {
    if parts == [] then []
    else
      var init, last := parts[..|parts| - 1], parts[|parts| - 1];
      SplitCount(last, sep);
      Tokens(init, sep) + Split(last, sep)
  }

  /** Splitting a join gives the pieces of each part's own split, part
      after part: a part containing the separator falls apart, and an empty
      part stays as an empty piece. */
  lemma {:induction false} SplitOfJoin(parts: seq<string>, sep: char)
    requires parts != []
    ensures Split(Join(parts, sep), sep) == Tokens(parts, sep)
  {
    var q, x := parts[..|parts| - 1], parts[|parts| - 1];
    if |parts| == 1 {
      assert Tokens(parts, sep) == Tokens([], sep) + Split(x, sep);
    } else {
      SplitOfJoin(q, sep);
      SplitConcat(Join(q, sep), x, sep);
    }
  }

  /** Separator-free parts are their own tokens. */
  lemma {:induction false} TokensWithoutSeparator(parts: seq<string>, sep: char)
    requires forall i :: 0 <= i < |parts| ==> sep !in parts[i]
    ensures Tokens(parts, sep) == parts
  {
    if parts != [] {
      var q, x := parts[..|parts| - 1], parts[|parts| - 1];
      assert Tokens(parts, sep) == Tokens(q, sep) + Split(x, sep);
      assert Tokens(q, sep) == q by {
        assert forall i :: 0 <= i < |q| ==> q[i] == parts[i];
        TokensWithoutSeparator(q, sep);
      }
      assert Split(x, sep) == [x] by {
        SplitWithoutSeparator(x, sep);
      }
      assert parts == q + [x];
    }
  }

  /** Splitting a join of separator-free pieces gives the pieces back. */
  lemma SplitJoin(parts: seq<string>, sep: char)
    requires parts != []
    requires forall i :: 0 <= i < |parts| ==> sep !in parts[i]
    ensures Split(Join(parts, sep), sep) == parts
  {
    SplitOfJoin(parts, sep);
    TokensWithoutSeparator(parts, sep);
  }

  // ---------------------------------------------------------------------
  // str.strip() with no argument.

  /** The characters Python's `str.isspace` accepts. */
  predicate IsSpace(c: char) {
    var n := c as int;
    9 <= n <= 13 || 28 <= n <= 32 || n == 0x85 || n == 0xA0 || n == 0x1680
    || 0x2000 <= n <= 0x200A || n == 0x2028 || n == 0x2029 || n == 0x202F
    || n == 0x205F || n == 0x3000
  }

  function LeadingSpaces(s: string): (n: nat)
    ensures n <= |s|
    ensures forall i :: 0 <= i < n ==> IsSpace(s[i])
    ensures n < |s| ==> !IsSpace(s[n])
  {
    if s == [] || !IsSpace(s[0]) then 0 else 1 + LeadingSpaces(s[1..])
  }

  function TrailingSpaces(s: string): (n: nat)
    ensures n <= |s|
    ensures forall i :: |s| - n <= i < |s| ==> IsSpace(s[i])
    ensures n < |s| ==> !IsSpace(s[|s| - 1 - n])
  {
    if s == [] || !IsSpace(s[|s| - 1]) then 0 else 1 + TrailingSpaces(s[..|s| - 1])
  }

  /** `s.strip()`: the text between the leading and trailing whitespace. */
  function Strip(s: string): (r: string)
    ensures r == [] || (!IsSpace(r[0]) && !IsSpace(r[|r| - 1]))
    ensures LeadingSpaces(s) + |r| <= |s| && r == s[LeadingSpaces(s)..LeadingSpaces(s) + |r|]
    ensures forall k :: LeadingSpaces(s) + |r| <= k < |s| ==> IsSpace(s[k])
  {
    var a := LeadingSpaces(s);
    var t := s[a..];
    var r := t[..|t| - TrailingSpaces(t)];
    assert s[a..a + |r|] == r;
    assert forall k :: a + |r| <= k < |s| ==> s[k] == t[k - a];
    r
  }

  /** Text with no whitespace at either end is left as it is; hence
      stripping twice is stripping once. */
  lemma StripUnpadded(s: string)
    requires s == [] || (!IsSpace(s[0]) && !IsSpace(s[|s| - 1]))
    ensures Strip(s) == s
  {
  }

  lemma StripIdempotent(s: string)
    ensures Strip(Strip(s)) == Strip(s)
  {
    StripUnpadded(Strip(s));
  }
}
