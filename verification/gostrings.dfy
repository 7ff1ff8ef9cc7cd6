/** The handful of Go string operations the leaderboard relies on, with the
    semantics of Go's `strings` and `fmt` packages: the `<` comparison on
    strings, `strings.ToLower`, `strings.Split` with a one-character
    separator, `strings.LastIndex`, `strings.TrimSpace` and the `%d` verb.

    A Go string is a sequence of UTF-8 bytes; here it is a sequence of
    Unicode scalar values. UTF-8 preserves code-point order, so comparing
    scalar values lexicographically gives exactly Go's bytewise `<`. */
module GoStrings {

  // ---------------------------------------------------------------------
  // Ordering: Go's `<` on strings
  // ---------------------------------------------------------------------

  /** Go's `a < b` on strings: lexicographic, a proper prefix comes first. */
  predicate Less(a: string, b: string)
    decreases |a|
  {
    if |a| == 0 then |b| > 0
    else if |b| == 0 then false
    else if a[0] != b[0] then a[0] < b[0]
    else Less(a[1..], b[1..])
  }

  lemma {:induction false} LessIrreflexive(a: string)
    ensures !Less(a, a)
    decreases |a|
  {
    if |a| > 0 {
      LessIrreflexive(a[1..]);
    }
  }

  lemma {:induction false} LessAsymmetric(a: string, b: string)
    ensures Less(a, b) ==> !Less(b, a)
    decreases |a|
  {
    if |a| > 0 && |b| > 0 && a[0] == b[0] {
      LessAsymmetric(a[1..], b[1..]);
    }
  }

  lemma {:induction false} LessTransitive(a: string, b: string, c: string)
    requires Less(a, b) && Less(b, c)
    ensures Less(a, c)
    decreases |a|
  {
    if |a| > 0 && a[0] == b[0] && b[0] == c[0] {
      LessTransitive(a[1..], b[1..], c[1..]);
    }
  }

  /** Two different strings are always ordered one way or the other. */
  lemma {:induction false} LessTotal(a: string, b: string)
    requires a != b
    ensures Less(a, b) || Less(b, a)
    decreases |a|
  {
    if |a| > 0 && |b| > 0 && a[0] == b[0] {
      assert a == [a[0]] + a[1..] && b == [b[0]] + b[1..];
      LessTotal(a[1..], b[1..]);
    }
  }

  // ---------------------------------------------------------------------
  // strings.ToLower
  // ---------------------------------------------------------------------

  /** `unicode.ToLower` for the characters that matter when the result is
      compared with an ASCII word: `A`-`Z`, and the only two non-ASCII code
      points whose lower case is ASCII (U+0130 maps to `i`, the Kelvin sign
      U+212A maps to `k`). Every other character is kept as it is. */
  function LowerRune(c: char): (l: char)
    ensures 'A' <= c <= 'Z' ==> l as int == c as int + 32
    ensures l != c ==> ('A' <= c <= 'Z' || c == '\U{0130}' || c == '\U{212A}')
    ensures !('A' <= l <= 'Z')
    ensures c == '\U{0130}' ==> l == 'i'
    ensures c == '\U{212A}' ==> l == 'k'
  {
    if 'A' <= c <= 'Z' then (c as int + 32) as char
    else if c == '\U{212A}' then 'k'
    else if c == '\U{0130}' then 'i'
    else c
  }

  /** `strings.ToLower`: every character lowered on its own. */
  function ToLower(s: string): (r: string)
    ensures |r| == |s|
    ensures forall i :: 0 <= i < |s| ==> r[i] == LowerRune(s[i])
  {
    if |s| == 0 then [] else [LowerRune(s[0])] + ToLower(s[1..])
  }

  /** Lower-casing twice changes nothing. */
  lemma ToLowerIdempotent(s: string)
    ensures ToLower(ToLower(s)) == ToLower(s)
  {
  }

  // ---------------------------------------------------------------------
  // strings.Split and its inverse, strings.Join
  // ---------------------------------------------------------------------

  /** `strings.Split(s, sep)` for a one-character separator: the pieces
      between separators, so `n` separators give `n + 1` pieces and the
      empty string gives one empty piece. */
  function Split(s: string, sep: char): (parts: seq<string>)
    ensures |parts| >= 1
    ensures forall i :: 0 <= i < |parts| ==> sep !in parts[i]
    decreases |s|
  {
    if |s| == 0 then [""]
    else
      var rest := Split(s[1..], sep);
      if s[0] == sep then [""] + rest
      else [[s[0]] + rest[0]] + rest[1..]
  }

  /** `strings.Join(parts, sep)` for a one-character separator. */
  function Join(parts: seq<string>, sep: char): string
    decreases |parts|
  {
    if |parts| == 0 then ""
    else if |parts| == 1 then parts[0]
    else parts[0] + [sep] + Join(parts[1..], sep)
  }

  /** Number of occurrences of `c` in `s`. */
  function Occurrences(s: string, c: char): nat
  {
    if |s| == 0 then 0 else (if s[0] == c then 1 else 0) + Occurrences(s[1..], c)
  }

  lemma {:induction false} OccurrencesZero(s: string, c: char)
    ensures Occurrences(s, c) == 0 <==> c !in s
  {
    if |s| > 0 {
      OccurrencesZero(s[1..], c);
      assert s == [s[0]] + s[1..];
    }
  }

  /** Joining one more piece appends a separator and the piece. */
  lemma {:induction false} JoinSnoc(parts: seq<string>, last: string, sep: char)
    requires |parts| >= 1
    ensures Join(parts + [last], sep) == Join(parts, sep) + [sep] + last
    decreases |parts|
  {
    if |parts| > 1 {
      JoinSnoc(parts[1..], last, sep);
      assert (parts + [last])[1..] == parts[1..] + [last];
    }
  }

  /** Joining the pieces of a split gives back the string. */
  lemma {:induction false} JoinSplit(s: string, sep: char)
    ensures Join(Split(s, sep), sep) == s
    decreases |s|
  {
    if |s| > 0 {
      var rest := Split(s[1..], sep);
      JoinSplit(s[1..], sep);
      if s[0] == sep {
        assert Join([""] + rest, sep) == "" + [sep] + Join(rest, sep);
      } else if |rest| == 1 {
        assert Join(rest, sep) == rest[0];
      } else {
        assert rest == [rest[0]] + rest[1..];
        assert Join(rest, sep) == rest[0] + [sep] + Join(rest[1..], sep);
        assert ([[s[0]] + rest[0]] + rest[1..])[1..] == rest[1..];
      }
    }
  }

  /** Splitting a joined sequence gives back its pieces, provided no piece
      contains the separator. */
  lemma {:induction false} SplitJoin(parts: seq<string>, sep: char)
    requires |parts| >= 1
    requires forall i :: 0 <= i < |parts| ==> sep !in parts[i]
    ensures Split(Join(parts, sep), sep) == parts
    decreases |parts|
  {
    if |parts| == 1 {
      SplitSeparatorFree(parts[0], sep);
    } else {
      SplitJoin(parts[1..], sep);
      SplitAfterPiece(parts[0], Join(parts[1..], sep), sep);
      assert Join(parts, sep) == parts[0] + ([sep] + Join(parts[1..], sep));
      assert parts == [parts[0]] + parts[1..];
    }
  }

  /** A string without the separator splits into itself. */
  lemma {:induction false} SplitSeparatorFree(a: string, sep: char)
    requires sep !in a
    ensures Split(a, sep) == [a]
    decreases |a|
  {
    if |a| > 0 {
      SplitSeparatorFree(a[1..], sep);
      assert [a[0]] + a[1..] == a;
    }
  }

  /** Splitting `a + sep + b`, where `a` has no separator, puts `a` first. */
  lemma {:induction false} SplitAfterPiece(a: string, b: string, sep: char)
    requires sep !in a
    ensures Split(a + ([sep] + b), sep) == [a] + Split(b, sep)
    decreases |a|
  {
    var s := a + ([sep] + b);
    if |a| == 0 {
      assert s == [sep] + b;
      assert s[1..] == b;
    } else {
      assert s[1..] == a[1..] + ([sep] + b);
      SplitAfterPiece(a[1..], b, sep);
      assert [a[0]] + a[1..] == a;
    }
  }

  /** A split yields one more piece than there are separators. */
  lemma {:induction false} SplitCount(s: string, sep: char)
    ensures |Split(s, sep)| == Occurrences(s, sep) + 1
    decreases |s|
  {
    if |s| > 0 {
      SplitCount(s[1..], sep);
    }
  }

  /** The string with every element followed by a newline, as built by
      appending `fmt.Sprintf("%s\n", x)` in a loop. */
  function Terminated(lines: seq<string>): string
    decreases |lines|
  {
    if |lines| == 0 then "" else lines[0] + "\n" + Terminated(lines[1..])
  }

  /** Newline-terminating every line is joining them with one empty
      line added at the end. */
  lemma {:induction false} TerminatedIsJoin(lines: seq<string>)
    ensures Terminated(lines) == Join(lines + [""], '\n')
    decreases |lines|
  {
    if |lines| > 0 {
      TerminatedIsJoin(lines[1..]);
      assert (lines + [""])[1..] == lines[1..] + [""];
    }
  }

  /** Splitting newline-terminated lines on the newline gives the lines back,
      followed by the empty piece after the last newline. */
  lemma SplitTerminated(lines: seq<string>)
    requires forall i :: 0 <= i < |lines| ==> '\n' !in lines[i]
    ensures Split(Terminated(lines), '\n') == lines + [""]
  {
    TerminatedIsJoin(lines);
    SplitJoin(lines + [""], '\n');
  }

  /** The same, with two lines written in front. */
  lemma SplitTwoThenTerminated(a: string, b: string, lines: seq<string>)
    requires '\n' !in a && '\n' !in b
    requires forall i :: 0 <= i < |lines| ==> '\n' !in lines[i]
    ensures Split(a + "\n" + b + "\n" + Terminated(lines), '\n') == [a, b] + lines + [""]
  {
    var all := [a, b] + lines;
    assert all[1..][1..] == lines;
    assert Terminated(all) == a + "\n" + b + "\n" + Terminated(lines);
    SplitTerminated(all);
  }

  // ---------------------------------------------------------------------
  // strings.LastIndex
  // ---------------------------------------------------------------------

  /** `sub` occurs in `s` starting at index `k`. */
  predicate OccursAt(s: string, sub: string, k: int)
  {
    0 <= k && k + |sub| <= |s| && s[k..k + |sub|] == sub
  }

  /** `strings.LastIndex(s, sub)`: the start of the last occurrence of `sub`
      in `s`, or -1 when there is none. */
  function LastIndex(s: string, sub: string): (j: int)
    ensures -1 <= j <= |s|
    ensures j >= 0 ==> OccursAt(s, sub, j)
    ensures forall k :: j < k <= |s| ==> !OccursAt(s, sub, k)
  {
    LastIndexUpTo(s, sub, |s| - |sub|)
  }

  /** The last occurrence of `sub` starting at or before `n`. */
  function LastIndexUpTo(s: string, sub: string, n: int): (j: int)
    requires n <= |s| - |sub|
    ensures j == -1 || 0 <= j <= n
    ensures j >= 0 ==> OccursAt(s, sub, j)
    ensures forall k :: j < k <= n ==> !OccursAt(s, sub, k)
    decreases n + 1
  {
    if n < 0 then -1
    else if s[n..n + |sub|] == sub then n
    else LastIndexUpTo(s, sub, n - 1)
  }

  // ---------------------------------------------------------------------
  // strings.TrimSpace
  // ---------------------------------------------------------------------

  /** `unicode.IsSpace`: the Latin-1 spaces and the other code points with
      Unicode's White_Space property. */
  predicate IsSpace(c: char)
  {
    || c == '\t' || c == '\n' || c == '\U{0B}' || c == '\U{0C}' || c == '\r' || c == ' '
    || c == '\U{85}' || c == '\U{A0}' || c == '\U{1680}'
    || ('\U{2000}' <= c <= '\U{200A}')
    || c == '\U{2028}' || c == '\U{2029}' || c == '\U{202F}' || c == '\U{205F}' || c == '\U{3000}'
  }

  predicate AllSpace(s: string)
  {
    forall i :: 0 <= i < |s| ==> IsSpace(s[i])
  }

  /** `strings.TrimLeftFunc(s, unicode.IsSpace)`. */
  function TrimLeft(s: string): (r: string)
    ensures |r| <= |s| && r == s[|s| - |r|..]
    ensures r == [] || !IsSpace(r[0])
  {
    if |s| == 0 || !IsSpace(s[0]) then s else TrimLeft(s[1..])
  }

  /** `strings.TrimRightFunc(s, unicode.IsSpace)`. */
  function TrimRight(s: string): (r: string)
    ensures |r| <= |s| && r == s[..|r|]
    ensures r == [] || !IsSpace(r[|r| - 1])
  {
    if |s| == 0 || !IsSpace(s[|s| - 1]) then s else TrimRight(s[..|s| - 1])
  }

  /** `TrimLeft` cuts off spaces only. */
  lemma {:induction false} TrimLeftCutsSpaces(s: string)
    ensures AllSpace(s[..|s| - |TrimLeft(s)|])
    decreases |s|
  {
    if |s| > 0 && IsSpace(s[0]) {
      TrimLeftCutsSpaces(s[1..]);
      var k := |s| - |TrimLeft(s)|;
      forall i | 0 <= i < k
        ensures IsSpace(s[i])
      {
        if i > 0 {
          assert s[i] == s[1..][..k - 1][i - 1];
        }
      }
    }
  }

  /** `TrimRight` cuts off spaces only. */
  lemma {:induction false} TrimRightCutsSpaces(s: string)
    ensures AllSpace(s[|TrimRight(s)|..])
    decreases |s|
  {
    if |s| > 0 && IsSpace(s[|s| - 1]) {
      var init := s[..|s| - 1];
      TrimRightCutsSpaces(init);
      var k := |TrimRight(s)|;
      forall i | k <= i < |s|
        ensures IsSpace(s[i])
      {
        if i < |s| - 1 {
          assert s[i] == init[k..][i - k];
        }
      }
    }
  }

  /** Neither starts nor ends with a space. */
  predicate Trimmed(s: string)
  {
    s == [] || (!IsSpace(s[0]) && !IsSpace(s[|s| - 1]))
  }

  /** `strings.TrimSpace`: the string without its leading and trailing
      spaces. */
  function TrimSpace(s: string): (r: string)
    ensures |r| <= |s|
    ensures Trimmed(r)
  {
    TrimRight(TrimLeft(s))
  }

  /** What `TrimSpace` keeps is a piece of the string with only spaces cut
      off on either side. */
  lemma TrimSpacePiece(s: string)
    ensures var r := TrimSpace(s);
      exists lo :: 0 <= lo <= |s| - |r| && r == s[lo..lo + |r|]
        && AllSpace(s[..lo]) && AllSpace(s[lo + |r|..])
  {
    var l := TrimLeft(s);
    var r := TrimRight(l);
    var lo := |s| - |l|;
    TrimLeftCutsSpaces(s);
    TrimRightCutsSpaces(l);
    assert r == s[lo..lo + |r|];
    assert s[lo + |r|..] == l[|r|..];
  }

  /** Trimming never introduces a character. */
  lemma TrimSpaceKeepsOut(s: string, c: char)
    requires c !in s
    ensures c !in TrimSpace(s)
  {
    var l := TrimLeft(s);
    var r := TrimRight(l);
    var lo := |s| - |l|;
    forall i | 0 <= i < |r|
      ensures r[i] != c
    {
      assert r[i] == l[i];
      assert l[i] == s[lo + i];
    }
  }

  /** A string is left alone by `TrimSpace` exactly when it neither starts
      nor ends with a space. */
  lemma TrimSpaceFixed(s: string)
    ensures TrimSpace(s) == s <==> Trimmed(s)
  {
  }

  // ---------------------------------------------------------------------
  // fmt's %d verb
  // ---------------------------------------------------------------------

  predicate IsDigit(c: char)
  {
    '0' <= c <= '9'
  }

  /** The decimal digits of `n`, without leading zeros. */
  function NatToDecimal(n: nat): (s: string)
    ensures |s| >= 1
    ensures forall i :: 0 <= i < |s| ==> IsDigit(s[i])
    ensures s[0] == '0' ==> n == 0
  {
    var d := ['0' + (n % 10) as char];
    if n < 10 then d else NatToDecimal(n / 10) + d
  }

  /** `fmt.Sprintf("%d", i)`: a minus sign for negative numbers, then the
      digits of the magnitude. */
  function Itoa(i: int): (s: string)
    ensures '\n' !in s
  {
    if i < 0 then "-" + NatToDecimal(-i) else NatToDecimal(i)
  }

  /** The value of a string of decimal digits. */
  function DecimalValue(s: string): nat
    requires forall i :: 0 <= i < |s| ==> IsDigit(s[i])
  {
    if |s| == 0 then 0
    else
      var last := s[|s| - 1];
      assert IsDigit(last);
      DecimalValue(s[..|s| - 1]) * 10 + (last as int - '0' as int)
  }

  /** Reading back the digits gives the number written. */
  lemma {:induction false} DecimalRoundTrip(n: nat)
    ensures DecimalValue(NatToDecimal(n)) == n
  {
    var s := NatToDecimal(n);
    if n >= 10 {
      DecimalRoundTrip(n / 10);
      assert s[..|s| - 1] == NatToDecimal(n / 10);
    }
  }

  /** Different numbers are written differently. */
  lemma ItoaInjective(a: int, b: int)
    requires Itoa(a) == Itoa(b)
    ensures a == b
  {
    if a < 0 && b < 0 {
      assert NatToDecimal(-a) == Itoa(a)[1..];
      DecimalRoundTrip(-a);
      DecimalRoundTrip(-b);
    } else if a >= 0 && b >= 0 {
      DecimalRoundTrip(a);
      DecimalRoundTrip(b);
    }
  }
}
