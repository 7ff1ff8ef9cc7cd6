/** The leaderboard file `README.md`: a title, the time of the update, then
    one numbered line per ranked participant linking to their profile. */
module Leaderboard {
  import opened GoStrings
  import opened Ranking

  const Title: string := "# Hacktoberfest 2021 Leaderboard."
  const UpdatedPrefix: string := "### Updated: "
  const ProfileBase: string := "https://github.com/"

  /** The two header lines; `stamp` is the update time already formatted
      as RFC 1123 with a numeric zone. */
  function Header(stamp: string): string
  {
    Title + "\n" + (UpdatedPrefix + stamp) + "\n"
  }

  /** One ranked line, without its newline:
      `<rank>. [<handle>](https://github.com/<handle>) - <count>`. */
  function Entry(rank: int, t: Tuple): string
  {
    Itoa(rank) + ". [" + t.user + "](" + ProfileBase + t.user + ") - " + Itoa(t.pr)
  }

  /** The ranked lines, numbered from `rank` on. */
  function Entries(ranking: seq<Tuple>, rank: int): (lines: seq<string>)
    ensures |lines| == |ranking|
    decreases |ranking|
  {
    if |ranking| == 0 then [] else [Entry(rank, ranking[0])] + Entries(ranking[1..], rank + 1)
  }

  /** Line `i` of the ranked lines shows rank `rank + i` and entry `i`. */
  lemma {:induction false} EntriesAt(ranking: seq<Tuple>, rank: int)
    ensures forall i :: 0 <= i < |ranking| ==> Entries(ranking, rank)[i] == Entry(rank + i, ranking[i])
    decreases |ranking|
  {
    if |ranking| > 0 {
      EntriesAt(ranking[1..], rank + 1);
      assert forall i :: 0 < i < |ranking| ==> ranking[i] == ranking[1..][i - 1];
    }
  }

  /** No ranked line holds a newline when no handle does. */
  lemma {:induction false} EntriesOneLine(ranking: seq<Tuple>, rank: int)
    requires forall i :: 0 <= i < |ranking| ==> '\n' !in ranking[i].user
    ensures forall i :: 0 <= i < |ranking| ==> '\n' !in Entries(ranking, rank)[i]
    decreases |ranking|
  {
    if |ranking| > 0 {
      EntryOneLine(rank, ranking[0]);
      EntriesOneLine(ranking[1..], rank + 1);
      var lines := Entries(ranking, rank);
      assert forall i :: 0 < i < |ranking| ==> lines[i] == Entries(ranking[1..], rank + 1)[i - 1];
    }
  }

  /** The file content: the header, then each ranked line followed by a
      newline, ranks starting at 1. */
  function Render(stamp: string, ranking: seq<Tuple>): string
  {
    Header(stamp) + Terminated(Entries(ranking, 1))
  }

  lemma EntryOneLine(rank: int, t: Tuple)
    requires '\n' !in t.user
    ensures '\n' !in Entry(rank, t)
  {
    var a, b := Itoa(rank), Itoa(t.pr);
    assert '\n' !in ". [";
    assert '\n' !in "](";
    assert '\n' !in ProfileBase;
    assert '\n' !in ") - ";
    assert Entry(rank, t) == a + ". [" + t.user + "](" + ProfileBase + t.user + ") - " + b;
  }

  /** Read line by line, the file is the title, the update line, and then
      line `i + 1` of the ranking is `i. [u](https://github.com/u) - n` for
      its `i`-th entry `(u, n)`; nothing follows the last newline. */
  lemma RenderLines(stamp: string, ranking: seq<Tuple>)
    requires '\n' !in stamp
    requires forall i :: 0 <= i < |ranking| ==> '\n' !in ranking[i].user
    ensures Split(Render(stamp, ranking), '\n') ==
      [Title, UpdatedPrefix + stamp] + Entries(ranking, 1) + [""]
  {
    var entries := Entries(ranking, 1);
    assert Render(stamp, ranking) == Title + "\n" + (UpdatedPrefix + stamp) + "\n" + Terminated(entries);
    HeaderOneLine(stamp);
    EntriesOneLine(ranking, 1);
    SplitTwoThenTerminated(Title, UpdatedPrefix + stamp, entries);
  }

  lemma HeaderOneLine(stamp: string)
    requires '\n' !in stamp
    ensures '\n' !in Title && '\n' !in UpdatedPrefix + stamp
  {
  }
}
