/** String operations of the JavaScript runtime that the library relies on:
    `trim`, `split` on one character, `split(/\s+/)` and `includes`. */
module Text {

  /** ECMAScript WhiteSpace and LineTerminator code points: the set that
      `String.prototype.trim` strips and that `\s` matches. */
  predicate IsWs(c: char) {
    || c == '\t' || c == '\n' || c == '\U{B}' || c == '\U{C}' || c == '\r' || c == ' '
    || c == '\U{A0}' || c == '\U{1680}' || ('\U{2000}' <= c <= '\U{200A}')
    || c == '\U{2028}' || c == '\U{2029}' || c == '\U{202F}' || c == '\U{205F}'
    || c == '\U{3000}' || c == '\U{FEFF}'
  }

  predicate AllWs(s: string) {
    forall i :: 0 <= i < |s| ==> IsWs(s[i])
  }

  predicate NoWs(s: string) {
    forall i :: 0 <= i < |s| ==> !IsWs(s[i])
  }

  // ---------------------------------------------------------------------
  // trim
  // ---------------------------------------------------------------------

  /** Number of leading whitespace characters. */
  function LeadingWs(s: string): (n: nat)
    ensures n <= |s|
    ensures AllWs(s[..n])
    ensures n < |s| ==> !IsWs(s[n])
  {
    if |s| == 0 || !IsWs(s[0]) then 0
    else
      var k := LeadingWs(s[1..]);
      assert s[..k + 1] == [s[0]] + s[1..][..k];
      k + 1
  }

  /** Number of trailing whitespace characters. */
  function TrailingWs(s: string): (n: nat)
    ensures n <= |s|
    ensures AllWs(s[|s| - n..])
    ensures n < |s| ==> !IsWs(s[|s| - n - 1])
  {
    if |s| == 0 || !IsWs(s[|s| - 1]) then 0
    else
      var k := TrailingWs(s[..|s| - 1]);
      TrailingStep(s, k);
      k + 1
  }

  /** One more trailing whitespace character extends the run by one. */
  lemma TrailingStep(s: string, k: nat)
    requires 0 < |s| && IsWs(s[|s| - 1]) && k <= |s| - 1
    requires AllWs(s[..|s| - 1][|s| - 1 - k..])
    requires k < |s| - 1 ==> !IsWs(s[..|s| - 1][|s| - 1 - k - 1])
    ensures AllWs(s[|s| - (k + 1)..])
    ensures k + 1 < |s| ==> !IsWs(s[|s| - (k + 1) - 1])
  {
    var u := s[..|s| - 1];
    forall i | |s| - (k + 1) <= i < |s| ensures IsWs(s[i]) {
      if i < |s| - 1 {
        assert s[i] == u[|u| - k..][i - (|s| - (k + 1))];
      }
    }
  }

  /** `String.prototype.trim`. */
  function Trim(s: string): (r: string)
  {
    var t := s[LeadingWs(s)..];
    t[..|t| - TrailingWs(t)]
  }

  lemma {:induction false} LeadingWsIs(s: string, i: nat)
    requires i <= |s| && AllWs(s[..i]) && (i < |s| ==> !IsWs(s[i]))
    ensures LeadingWs(s) == i
    decreases i
  {
    if i > 0 {
      assert s[..i][0] == s[0];
      assert s[1..][..i - 1] == s[..i][1..];
      LeadingWsIs(s[1..], i - 1);
    }
  }

  lemma {:induction false} TrailingWsIs(s: string, n: nat)
    requires n <= |s| && AllWs(s[|s| - n..]) && (n < |s| ==> !IsWs(s[|s| - n - 1]))
    ensures TrailingWs(s) == n
    decreases n
  {
    if n > 0 {
      var tail := s[|s| - n..];
      assert tail[n - 1] == s[|s| - 1];
      assert IsWs(s[|s| - 1]);
      var u := s[..|s| - 1];
      var tail' := u[|u| - (n - 1)..];
      assert tail' == tail[..n - 1];
      assert AllWs(tail');
      if n - 1 < |u| {
        assert u[|u| - (n - 1) - 1] == s[|s| - n - 1];
      }
      TrailingWsIs(u, n - 1);
    }
  }

  /** The trimmed string is the unique slice of `s` that sheds only
      whitespace on both sides and neither starts nor ends with whitespace. */
  lemma TrimCharacterised(s: string, i: nat, j: nat)
    requires i <= j <= |s|
    requires AllWs(s[..i]) && AllWs(s[j..])
    requires i < j ==> !IsWs(s[i]) && !IsWs(s[j - 1])
    ensures Trim(s) == s[i..j]
  {
    if i < j {
      LeadingWsIs(s, i);
      var t := s[i..];
      assert t[|t| - (|s| - j)..] == s[j..];
      assert t[|t| - (|s| - j) - 1] == s[j - 1];
      TrailingWsIs(t, |s| - j);
    } else {
      assert AllWs(s[..|s|]) by {
        forall k | 0 <= k < |s| ensures IsWs(s[k]) {
          if k < i { assert s[..i][k] == s[k]; } else { assert s[j..][k - j] == s[k]; }
        }
      }
      LeadingWsIs(s, |s|);
    }
  }

  /** The result of trim has no whitespace at either end and is a slice of
      the input with only whitespace removed around it. */
  lemma TrimShape(s: string)
    ensures var r := Trim(s); r == "" || (!IsWs(r[0]) && !IsWs(r[|r| - 1]))
    ensures exists i, j :: 0 <= i <= j <= |s| && Trim(s) == s[i..j] && AllWs(s[..i]) && AllWs(s[j..])
  {
    var a := LeadingWs(s);
    var t := s[a..];
    var b := TrailingWs(t);
    var j := a + |t| - b;
    assert Trim(s) == s[a..j];
    assert s[j..] == t[|t| - b..];
    if a < j {
      assert s[a] == t[0];
      assert t[|t| - b - 1] == s[j - 1];
    }
  }

  /** A string with no whitespace at either end is its own trim. */
  lemma TrimUnpadded(s: string)
    requires s == "" || (!IsWs(s[0]) && !IsWs(s[|s| - 1]))
    ensures Trim(s) == s
  {
    assert s[..0] == [] && s[|s|..] == [];
    TrimCharacterised(s, 0, |s|);
    assert s[0..|s|] == s;
  }

  /** Trimming twice is the same as trimming once. */
  lemma TrimIdempotent(s: string)
    ensures Trim(Trim(s)) == Trim(s)
  {
    TrimShape(s);
    TrimUnpadded(Trim(s));
  }

  // ---------------------------------------------------------------------
  // split on a one-character separator, and its inverse
  // ---------------------------------------------------------------------

  function IndexOfChar(s: string, c: char): (i: nat)
    requires c in s
    ensures i < |s| && s[i] == c && c !in s[..i]
  {
    if s[0] == c then 0
    else
      var k := IndexOfChar(s[1..], c);
      assert s[..k + 1] == [s[0]] + s[1..][..k];
      k + 1
  }

  lemma {:induction false} IndexOfCharIs(s: string, c: char, i: nat)
    requires i < |s| && s[i] == c && c !in s[..i]
    ensures IndexOfChar(s, c) == i
    decreases i
  {
    if i > 0 {
      assert s[..i][0] == s[0];
      assert s[1..][..i - 1] == s[..i][1..];
      IndexOfCharIs(s[1..], c, i - 1);
    }
  }

  /** `s.split(sep)` for a one-character separator string. */
  function SplitOn(s: string, sep: char): (parts: seq<string>)
    ensures |parts| >= 1
    ensures forall i :: 0 <= i < |parts| ==> sep !in parts[i]
    decreases |s|
  {
    if sep !in s then [s]
    else
      var i := IndexOfChar(s, sep);
      [s[..i]] + SplitOn(s[i + 1..], sep)
  }

  /** `parts.join(sep)`. */
  function JoinWith(parts: seq<string>, sep: char): string {
    if |parts| == 0 then ""
    else if |parts| == 1 then parts[0]
    else parts[0] + [sep] + JoinWith(parts[1..], sep)
  }

  /** Joining the pieces of a split restores the original string. */
  lemma {:induction false} JoinSplit(s: string, sep: char)
    ensures JoinWith(SplitOn(s, sep), sep) == s
    decreases |s|
  {
    if sep in s {
      var i := IndexOfChar(s, sep);
      var rest := s[i + 1..];
      JoinSplit(rest, sep);
      var tail := SplitOn(rest, sep);
      assert SplitOn(s, sep) == [s[..i]] + tail;
      assert s == s[..i] + [sep] + rest;
    }
  }

  /** Splitting a join of separator-free pieces gives the pieces back. */
  lemma {:induction false} SplitJoin(parts: seq<string>, sep: char)
    requires |parts| >= 1
    requires forall i :: 0 <= i < |parts| ==> sep !in parts[i]
    ensures SplitOn(JoinWith(parts, sep), sep) == parts
    decreases |parts|
  {
    if |parts| > 1 {
      SplitStep(parts[0], sep, JoinWith(parts[1..], sep));
      SplitJoin(parts[1..], sep);
      assert parts == [parts[0]] + parts[1..];
    } else {
      assert JoinWith(parts, sep) == parts[0];
    }
  }

  /** A separator-free first piece comes off the front of a split. */
  lemma SplitStep(p: string, sep: char, rest: string)
    requires sep !in p
    ensures SplitOn(p + [sep] + rest, sep) == [p] + SplitOn(rest, sep)
  {
    var s := p + [sep] + rest;
    assert s[|p|] == sep;
    assert s[..|p|] == p;
    IndexOfCharIs(s, sep, |p|);
    assert s[|p| + 1..] == rest;
  }

  // ---------------------------------------------------------------------
  // split(/\s+/).filter(Boolean)
  // ---------------------------------------------------------------------

  /** Length of the leading run of non-whitespace characters. */
  function WordLength(s: string): (n: nat)
    ensures n <= |s|
    ensures NoWs(s[..n])
    ensures n < |s| ==> IsWs(s[n])
  {
    if |s| == 0 || IsWs(s[0]) then 0
    else
      var k := WordLength(s[1..]);
      assert s[..k + 1] == [s[0]] + s[1..][..k];
      k + 1
  }

  /** `s.split(/\s+/).filter(Boolean)`: the maximal whitespace-free runs. */
  function Words(s: string): (ws: seq<string>)
    ensures forall i :: 0 <= i < |ws| ==> |ws[i]| > 0 && NoWs(ws[i])
    decreases |s|
  {
    var t := s[LeadingWs(s)..];
    if |t| == 0 then []
    else
      var n := WordLength(t);
      assert n > 0 by { assert !IsWs(t[0]); }
      [t[..n]] + Words(t[n..])
  }

  lemma {:induction false} WordLengthIs(s: string, n: nat)
    requires n <= |s| && NoWs(s[..n]) && (n < |s| ==> IsWs(s[n]))
    ensures WordLength(s) == n
    decreases n
  {
    if n > 0 {
      assert s[..n][0] == s[0];
      assert s[1..][..n - 1] == s[..n][1..];
      WordLengthIs(s[1..], n - 1);
    }
  }

  /** A string that starts with a word of length `n` splits into that word
      and the words after it. */
  lemma WordsStart(s: string, n: nat)
    requires 0 < n <= |s| && NoWs(s[..n]) && (n < |s| ==> IsWs(s[n]))
    ensures Words(s) == [s[..n]] + Words(s[n..])
  {
    assert s[..0] == [];
    LeadingWsIs(s, 0);
    assert s[0..] == s;
    WordLengthIs(s, n);
  }

  /** A single word splits into itself. */
  lemma WordsOfWord(s: string)
    requires |s| > 0 && NoWs(s)
    ensures Words(s) == [s]
  {
    assert s[..|s|] == s;
    WordsStart(s, |s|);
    assert Words(s[|s|..]) == [] by { assert s[|s|..] == []; }
  }

  /** A string of whitespace only has no words. */
  lemma WordsAllWs(s: string)
    requires AllWs(s)
    ensures Words(s) == []
  {
    assert s[..|s|] == s;
    LeadingWsIs(s, |s|);
  }

  /** Slicing a concatenation just past its seam. */
  lemma SliceCat(x: string, y: string, k: nat)
    requires k <= |y|
    ensures (x + y)[..|x| + k] == x + y[..k]
    ensures (x + y)[|x| + k..] == y[k..]
  {
  }

  /** Whitespace in front of a string is skipped. */
  lemma WordsSkipWs(ws: string, b: string)
    requires AllWs(ws)
    ensures Words(ws + b) == Words(b)
  {
    var l := LeadingWs(b);
    SliceCat(ws, b, l);
    assert AllWs(ws + b[..l]);
    LeadingWsIs(ws + b, |ws| + l);
  }

  /** Regrouping a string cut at `l` and followed by two more pieces. */
  lemma Regroup(a: string, l: nat, ws: string, b: string)
    requires l <= |a|
    ensures a == a[..l] + a[l..]
    ensures a + ws + b == a[..l] + (a[l..] + ws + b)
    ensures a + ws + b == a + (ws + b)
    ensures a[l..] + ws + b == a[l..] + (ws + b)
  {
  }

  /** Words are split at every run of whitespace: `split(/\s+/)` followed by
      `filter(Boolean)` ignores leading, trailing and repeated whitespace. */
  lemma {:induction false} WordsConcatWs(a: string, ws: string, b: string)
    requires |ws| > 0 && AllWs(ws)
    ensures Words(a + ws + b) == Words(a) + Words(b)
    decreases |a|
  {
    if |a| == 0 {
      assert a + ws + b == ws + b;
      WordsSkipWs(ws, b);
    } else if LeadingWs(a) > 0 {
      WordsConcatWs(a[LeadingWs(a)..], ws, b);
      SkipLeading(a, ws, b);
    } else {
      WordsConcatWs(a[WordLength(a)..], ws, b);
      WordStep(a, ws, b);
    }
  }

  /** Leading whitespace is skipped, whatever follows. */
  lemma SkipLeading(a: string, ws: string, b: string)
    ensures Words(a + ws + b) == Words(a[LeadingWs(a)..] + ws + b)
    ensures Words(a) == Words(a[LeadingWs(a)..])
  {
    var l := LeadingWs(a);
    Regroup(a, l, ws, b);
    WordsSkipWs(a[..l], a[l..] + ws + b);
    WordsSkipWs(a[..l], a[l..]);
  }

  /** A string starting with a word keeps that word first, with or without
      whitespace and more text after it. */
  lemma WordStep(a: string, ws: string, b: string)
    requires |a| > 0 && !IsWs(a[0]) && |ws| > 0 && AllWs(ws)
    ensures WordLength(a) > 0
    ensures Words(a + ws + b) == [a[..WordLength(a)]] + Words(a[WordLength(a)..] + ws + b)
    ensures Words(a) == [a[..WordLength(a)]] + Words(a[WordLength(a)..])
  {
    var n := WordLength(a);
    Regroup(a, n, ws, b);
    WordsCutWord(a, n, ws + b);
    if n == |a| {
      assert a[..n] == a;
      WordsOfWord(a);
      assert a[n..] == [];
    } else {
      WordsStart(a, n);
    }
  }

  /** The first word of `p` stays the first word when whitespace follows `p`. */
  lemma WordsCutWord(p: string, n: nat, q: string)
    requires 0 < n <= |p| && NoWs(p[..n]) && (n < |p| ==> IsWs(p[n]))
    requires |q| > 0 && IsWs(q[0])
    ensures Words(p + q) == [p[..n]] + Words(p[n..] + q)
  {
    var s := p + q;
    assert s[..n] == p[..n];
    assert s[n] == if n < |p| then p[n] else q[0];
    assert s[n..] == p[n..] + q;
    WordsStart(s, n);
  }

  /** A word followed by a space comes off the front. */
  lemma WordsOfCons(p: string, rest: string)
    requires |p| > 0 && NoWs(p)
    ensures Words(p + [' '] + rest) == [p] + Words(rest)
  {
    assert p[..|p|] == p && p[|p|..] == [];
    assert IsWs(' ') && AllWs([' ']);
    WordsCutWord(p, |p|, [' '] + rest);
    assert p + [' '] + rest == p + ([' '] + rest);
    assert p[|p|..] + ([' '] + rest) == [' '] + rest;
    WordsSkipWs([' '], rest);
  }

  /** Joining non-empty whitespace-free tokens with single spaces and
      splitting again gives the tokens back. */
  lemma {:induction false} WordsOfJoin(ts: seq<string>)
    requires forall i :: 0 <= i < |ts| ==> |ts[i]| > 0 && NoWs(ts[i])
    ensures Words(JoinWith(ts, ' ')) == ts
    decreases |ts|
  {
    if |ts| == 1 {
      WordsOfWord(ts[0]);
    } else if |ts| > 1 {
      var rest := JoinWith(ts[1..], ' ');
      JoinHead(ts[1..], ' ');
      WordsOfCons(ts[0], rest);
      WordsOfJoin(ts[1..]);
      assert ts == [ts[0]] + ts[1..];
    }
  }

  /** A join of a non-empty first piece starts with that piece. */
  lemma JoinHead(ts: seq<string>, sep: char)
    requires |ts| > 0 && |ts[0]| > 0
    ensures |JoinWith(ts, sep)| > 0 && JoinWith(ts, sep)[0] == ts[0][0]
  {
  }

  // ---------------------------------------------------------------------
  // includes
  // ---------------------------------------------------------------------

  /** `t` occurs in `s` at position `i`. */
  predicate OccursAt(s: string, t: string, i: int) {
    0 <= i && i + |t| <= |s| && s[i..i + |t|] == t
  }

  /** `s.includes(t)`, as a left-to-right scan. */
  predicate Contains(s: string, t: string)
    decreases |s|
  {
    (|t| <= |s| && s[..|t|] == t) || (|s| > 0 && Contains(s[1..], t))
  }

  /** The scan agrees with the positional definition of a substring. */
  lemma {:induction false} ContainsIff(s: string, t: string)
    ensures Contains(s, t) <==> exists i :: OccursAt(s, t, i)
    decreases |s|
  {
    if |s| > 0 {
      ContainsIff(s[1..], t);
      if Contains(s[1..], t) {
        var i :| OccursAt(s[1..], t, i);
        assert s[1..][i..i + |t|] == s[i + 1..i + 1 + |t|];
        assert OccursAt(s, t, i + 1);
      }
      if i :| OccursAt(s, t, i) {
        if i > 0 {
          assert s[1..][i - 1..i - 1 + |t|] == s[i..i + |t|];
          assert OccursAt(s[1..], t, i - 1);
        } else {
          assert s[..|t|] == s[0..|t|];
        }
      }
    } else {
      if i :| OccursAt(s, t, i) {
        assert |t| == 0;
        assert s[..0] == t;
      }
    }
    if |t| <= |s| && s[..|t|] == t {
      assert s[0..|t|] == s[..|t|];
      assert OccursAt(s, t, 0);
    }
  }
}
