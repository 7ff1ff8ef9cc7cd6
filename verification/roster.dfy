/** The roster file `participants.txt`: one handle per line, in ascending
    order, each line ended by a newline; and the loop that reads it back. */
module Roster {
  import opened GoStrings

  /** `k` sorts before every other member of `s`. */
  predicate IsLeast(k: string, s: set<string>)
  {
    k in s && forall j :: j in s && j != k ==> Less(k, j)
  }

  lemma {:induction false} LeastExists(s: set<string>)
    requires |s| > 0
    ensures exists k :: IsLeast(k, s)
    decreases |s|
  {
    var x :| x in s;
    var rest := s - {x};
    if |rest| == 0 {
      assert forall j :: j in s ==> j == x;
      assert IsLeast(x, s);
    } else {
      LeastExists(rest);
      var k :| IsLeast(k, rest);
      LessTotal(x, k);
      if Less(x, k) {
        forall j | j in s && j != x
          ensures Less(x, j)
        {
          if j != k {
            LessTransitive(x, k, j);
          }
        }
        assert IsLeast(x, s);
      } else {
        assert IsLeast(k, s);
      }
    }
  }

  lemma LeastUnique(s: set<string>)
    ensures forall k, k' :: IsLeast(k, s) && IsLeast(k', s) ==> k == k'
  {
    forall k, k' | IsLeast(k, s) && IsLeast(k', s)
      ensures k == k'
    {
      LessAsymmetric(k, k');
    }
  }

  /** `sort.StringSlice(...).Sort()` over the registry's handles: every
      handle once, in strictly ascending order. */
  function SortedHandles(s: set<string>): (r: seq<string>)
    ensures |r| == |s|
    ensures forall i :: 0 <= i < |r| ==> r[i] in s
    ensures forall u :: u in s ==> u in r
    ensures forall i :: 0 < i < |r| ==> Less(r[i - 1], r[i])
    decreases |s|
  {
    if |s| == 0 then []
    else
      LeastExists(s);
      LeastUnique(s);
      var k :| IsLeast(k, s);
      var rest := s - {k};
      assert |rest| == |s| - 1;
      var tail := SortedHandles(rest);
      var r := [k] + tail;
      assert forall i :: 0 < i < |r| ==> r[i] == tail[i - 1];
      assert forall u :: u in s && u != k ==> u in tail;
      r
  }

  /** The content written to the roster file. */
  function Render(handles: set<string>): string
  {
    Terminated(SortedHandles(handles))
  }

  /** The lines kept by the reading loop: every non-empty line, trimmed. */
  function KeepLines(lines: seq<string>): (r: seq<string>)
    ensures |r| <= |lines|
    ensures forall i :: 0 <= i < |r| ==> Trimmed(r[i])
    decreases |lines|
  {
    if |lines| == 0 then []
    else
      var tail := KeepLines(lines[1..]);
      if lines[0] == "" then tail
      else
        var r := [TrimSpace(lines[0])] + tail;
        assert forall i :: 0 < i < |r| ==> r[i] == tail[i - 1];
        r
  }

  /** The reading loop, one line at a time: a further line adds nothing
      when it is empty and its trimmed form otherwise. */
  lemma {:induction false} KeepLinesAppend(lines: seq<string>, l: string)
    ensures KeepLines(lines + [l]) == KeepLines(lines) + (if l == "" then [] else [TrimSpace(l)])
    decreases |lines|
  {
    if |lines| == 0 {
      assert lines + [l] == [l];
      assert [l][1..] == [];
    } else {
      assert (lines + [l])[1..] == lines[1..] + [l];
      KeepLinesAppend(lines[1..], l);
    }
  }

  /** The participants read from the roster file's content. */
  function Parse(content: string): (r: seq<string>)
    ensures forall i :: 0 <= i < |r| ==> '\n' !in r[i]
  {
    var lines := Split(content, '\n');
    KeepLinesFrom(lines, '\n');
    KeepLines(lines)
  }

  /** Trimming keeps a line free of a character it did not contain. */
  lemma {:induction false} KeepLinesFrom(lines: seq<string>, c: char)
    requires forall i :: 0 <= i < |lines| ==> c !in lines[i]
    ensures forall i :: 0 <= i < |KeepLines(lines)| ==> c !in KeepLines(lines)[i]
    decreases |lines|
  {
    if |lines| > 0 {
      KeepLinesFrom(lines[1..], c);
      if lines[0] != "" {
        var t := TrimSpace(lines[0]);
        TrimSpaceKeepsOut(lines[0], c);
        var r := KeepLines(lines);
        assert forall i :: 0 < i < |r| ==> r[i] == KeepLines(lines[1..])[i - 1];
      }
    }
  }

  /** A handle the roster can carry without change: non-empty, on one line,
      and without surrounding spaces. */
  predicate Clean(h: string)
  {
    h != [] && '\n' !in h && Trimmed(h)
  }

  /** The reading loop keeps clean lines as they are and drops the empty
      piece after the final newline. */
  lemma {:induction false} KeepCleanLines(lines: seq<string>)
    requires forall i :: 0 <= i < |lines| ==> Clean(lines[i])
    ensures KeepLines(lines + [""]) == lines
    decreases |lines|
  {
    if |lines| == 0 {
      assert KeepLines([""]) == KeepLines([]);
    } else {
      TrimSpaceFixed(lines[0]);
      assert (lines + [""])[1..] == lines[1..] + [""];
      KeepCleanLines(lines[1..]);
      assert lines == [lines[0]] + lines[1..];
    }
  }

  /** Reading back a written roster gives its handles in sorted order,
      provided each handle is clean. */
  lemma ParseRender(handles: set<string>)
    requires forall h :: h in handles ==> Clean(h)
    ensures Parse(Render(handles)) == SortedHandles(handles)
  {
    var sorted := SortedHandles(handles);
    SplitTerminated(sorted);
    KeepCleanLines(sorted);
  }

  /** The reading loop tests a line for emptiness before trimming it, so a
      line of spaces yields the empty handle. */
  lemma BlankLineGivesEmptyHandle()
    ensures Parse(" \nbob\n") == ["", "bob"]
  {
    var lines := [" ", "bob", ""];
    assert Parse(" \nbob\n") == KeepLines(lines) by {
      BlankLineSplit();
    }
    assert KeepLines(lines) == ["", "bob"] by {
      BlankLineTrim();
      assert KeepLines([""]) == KeepLines([]);
      assert KeepLines(lines[1..]) == [TrimSpace("bob")] + KeepLines([""]);
      assert KeepLines(lines) == [TrimSpace(" ")] + KeepLines(lines[1..]);
    }
  }

  lemma BlankLineSplit()
    ensures Split(" \nbob\n", '\n') == [" ", "bob", ""]
  {
    SplitAfterPiece("bob", "", '\n');
    assert "bob" + ("\n" + "") == "bob\n";
    SplitAfterPiece(" ", "bob\n", '\n');
    assert " " + ("\n" + "bob\n") == " \nbob\n";
  }

  lemma BlankLineTrim()
    ensures TrimSpace(" ") == "" && TrimSpace("bob") == "bob"
  {
    assert " "[1..] == [];
    assert TrimLeft(" ") == [];
    assert TrimLeft("bob") == "bob";
    assert TrimRight("bob") == "bob";
  }
}
