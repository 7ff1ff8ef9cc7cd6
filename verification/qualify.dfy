/** The qualification rule of the contest: which of a participant's pull
    requests count towards the leaderboard, and how many of them do. */
module Qualify {
  import opened Optional
  import opened GoStrings

  /** The label, compared in lower case, that accepts a pull request. */
  const AcceptedLabel: string := "hacktoberfest-accepted"

  /** The repository topic, compared in lower case, that opts a repository
      into the contest. */
  const ContestTopic: string := "hacktoberfest"

  /** What precedes the pull-request number in a pull request's page URL. */
  const PullMarker: string := "/pull/"

  /** A search result for a pull request: the names of its labels and the URL
      of its page. */
  datatype PullRequest = PullRequest(labels: seq<string>, htmlUrl: string)

  /** The platform's answer to "what are the topics of repository
      (owner, name)?". */
  type TopicLookup = (string, string) -> seq<string>

  /** Some element of `xs`, in lower case, is `word`: the loop over labels or
      topics that sets `isValid` and breaks. */
  function AnyLowerIs(xs: seq<string>, word: string): (b: bool)
    ensures b <==> exists i :: 0 <= i < |xs| && ToLower(xs[i]) == word
  {
    if |xs| == 0 then false
    else if ToLower(xs[0]) == word then true
    else
      var b := AnyLowerIs(xs[1..], word);
      assert forall i :: 0 < i < |xs| ==> xs[i] == xs[1..][i - 1];
      b
  }

  /** The page URL cut at the last occurrence of `/pull/`; the whole URL when
      it has none. */
  function CutPull(url: string): (r: string)
    ensures |r| <= |url| && r == url[..|r|]
    ensures |r| < |url| ==> OccursAt(url, PullMarker, |r|)
    ensures forall k :: |r| < k <= |url| ==> !OccursAt(url, PullMarker, k)
    ensures |r| == |url| ==> forall k :: 0 <= k <= |url| ==> !OccursAt(url, PullMarker, k)
  {
    var j := LastIndex(url, PullMarker);
    if j >= 0 then url[..j] else url
  }

  /** The (owner, name) of the repository a pull request belongs to: the last
      two `/`-separated segments of the cut URL. `None` stands for the index
      out of range the source panics with when there are fewer than two
      segments, which is exactly when the cut URL has no `/`. */
  function RepoOf(url: string): (r: Option<(string, string)>)
    ensures r.None? <==> '/' !in CutPull(url)
    ensures r.Some? ==> '/' !in r.value.0 && '/' !in r.value.1
  {
    var cut := CutPull(url);
    var parts := Split(cut, '/');
    SplitCount(cut, '/');
    OccurrencesZero(cut, '/');
    if |parts| < 2 then None else Some((parts[|parts| - 2], parts[|parts| - 1]))
  }

  /** The owner and name are the last two `/`-separated segments of the cut
      URL: it ends with `owner/name`, which begins at its start or right
      after a `/`. */
  lemma RepoOfLocates(url: string)
    ensures RepoOf(url).Some? ==>
      var cut, owner, name := CutPull(url), RepoOf(url).value.0, RepoOf(url).value.1;
      var k := |cut| - |name| - |owner| - 1;
      0 <= k && cut[k..] == owner + "/" + name && (k == 0 || cut[k - 1] == '/')
  {
    var cut := CutPull(url);
    var parts := Split(cut, '/');
    if |parts| >= 2 {
      var owner, name := parts[|parts| - 2], parts[|parts| - 1];
      assert RepoOf(url) == Some((owner, name));
      JoinSplit(cut, '/');
      LastTwoSegments(cut, parts, '/');
      var k := |cut| - |name| - |owner| - 1;
      assert cut[k..] == owner + "/" + name;
    }
  }

  /** A string joined from at least two pieces ends with the last two
      pieces, separated, and they begin at its start or right after a
      separator. */
  lemma LastTwoSegments(s: string, parts: seq<string>, sep: char)
    requires |parts| >= 2 && Join(parts, sep) == s
    ensures
      var owner, name := parts[|parts| - 2], parts[|parts| - 1];
      var k := |s| - |name| - |owner| - 1;
      0 <= k && s[k..] == owner + [sep] + name && (k == 0 || s[k - 1] == sep)
  {
    var n := |parts|;
    if n == 2 {
      assert Join(parts, sep) == parts[0] + [sep] + Join(parts[1..], sep);
    } else {
      var init := parts[..n - 2];
      assert parts[..n - 1] == init + [parts[n - 2]];
      assert parts == parts[..n - 1] + [parts[n - 1]];
      JoinSnoc(parts[..n - 1], parts[n - 1], sep);
      JoinSnoc(init, parts[n - 2], sep);
    }
  }

  /** Whether one pull request counts; `None` when its URL names no
      repository and the source panics. */
  function Judge(pr: PullRequest, topics: TopicLookup): Option<bool>
  {
    var labelled := AnyLowerIs(pr.labels, AcceptedLabel);
    match RepoOf(pr.htmlUrl)
    case None => None
    case Some((owner, name)) => Some(labelled || AnyLowerIs(topics(owner, name), ContestTopic))
  }

  /** A pull request counts exactly when its URL names a repository and it
      carries the accepted label or that repository carries the contest
      topic, in any letter case; its URL alone decides whether the source
      panics. */
  lemma JudgeMeaning(pr: PullRequest, topics: TopicLookup)
    ensures Judge(pr, topics).None? <==> '/' !in CutPull(pr.htmlUrl)
    ensures Judge(pr, topics) == Some(true) <==>
      && RepoOf(pr.htmlUrl).Some?
      && ((exists i :: 0 <= i < |pr.labels| && ToLower(pr.labels[i]) == AcceptedLabel)
          || (var t := topics(RepoOf(pr.htmlUrl).value.0, RepoOf(pr.htmlUrl).value.1);
              exists i :: 0 <= i < |t| && ToLower(t[i]) == ContestTopic))
  {
  }

  /** The verdict on every pull request, in order. */
  function Verdicts(prs: seq<PullRequest>, topics: TopicLookup): (vs: seq<Option<bool>>)
    ensures |vs| == |prs|
    ensures forall i :: 0 <= i < |prs| ==> vs[i] == Judge(prs[i], topics)
  {
    seq(|prs|, i requires 0 <= i < |prs| => Judge(prs[i], topics))
  }

  /** How many verdicts are `Some(true)`; `None` as soon as one is `None`. */
  function CountTrue(vs: seq<Option<bool>>): (c: Option<nat>)
    ensures c.None? <==> None in vs
    ensures c.Some? ==> c.value <= |vs|
    ensures c.Some? ==> c.value == multiset(vs)[Some(true)]
    decreases |vs|
  {
    if |vs| == 0 then Some(0)
    else
      var init := vs[..|vs| - 1];
      var rest := CountTrue(init);
      var last := vs[|vs| - 1];
      assert vs == init + [last];
      assert multiset(vs) == multiset(init) + multiset{last};
      if rest.None? || last.None? then None
      else Some(if last.value then rest.value + 1 else rest.value)
  }

  /** The count is the number of verdicts exactly when all are `Some(true)`. */
  lemma {:induction false} CountTrueAll(vs: seq<Option<bool>>)
    ensures CountTrue(vs) == Some(|vs|) <==> forall i :: 0 <= i < |vs| ==> vs[i] == Some(true)
    decreases |vs|
  {
    if |vs| > 0 {
      var init := vs[..|vs| - 1];
      CountTrueAll(init);
      assert forall i :: 0 <= i < |init| ==> init[i] == vs[i];
    }
  }

  /** The count is zero exactly when all verdicts are `Some(false)`. */
  lemma {:induction false} CountTrueNone(vs: seq<Option<bool>>)
    ensures CountTrue(vs) == Some(0) <==> forall i :: 0 <= i < |vs| ==> vs[i] == Some(false)
    decreases |vs|
  {
    if |vs| > 0 {
      var init := vs[..|vs| - 1];
      CountTrueNone(init);
      assert forall i :: 0 <= i < |init| ==> init[i] == vs[i];
    }
  }

  /** The number of a participant's pull requests that count
      (`validPrCount`); `None` when some pull request's URL makes the source
      panic. */
  function CountValid(prs: seq<PullRequest>, topics: TopicLookup): (c: Option<nat>)
    ensures c.None? <==> exists i :: 0 <= i < |prs| && Judge(prs[i], topics).None?
    ensures c.Some? ==> c.value <= |prs|
    ensures c.Some? ==> c.value == multiset(Verdicts(prs, topics))[Some(true)]
  {
    var vs := Verdicts(prs, topics);
    assert None in vs <==> exists i :: 0 <= i < |prs| && Judge(prs[i], topics).None?;
    CountTrue(vs)
  }

  /** The count is the number of pull requests exactly when every one of
      them counts, and zero exactly when none does and none makes the source
      panic. */
  lemma CountExtremes(prs: seq<PullRequest>, topics: TopicLookup)
    ensures CountValid(prs, topics) == Some(|prs|) <==>
      forall i :: 0 <= i < |prs| ==> Judge(prs[i], topics) == Some(true)
    ensures CountValid(prs, topics) == Some(0) <==>
      forall i :: 0 <= i < |prs| ==> Judge(prs[i], topics) == Some(false)
  {
    CountTrueAll(Verdicts(prs, topics));
    CountTrueNone(Verdicts(prs, topics));
  }

  /** Counting panics exactly when some pull request's URL, cut at its last
      `/pull/`, has no `/` left to split on. */
  lemma CountPanics(prs: seq<PullRequest>, topics: TopicLookup)
    ensures CountValid(prs, topics).None? <==>
      exists i :: 0 <= i < |prs| && '/' !in CutPull(prs[i].htmlUrl)
  {
    forall i | 0 <= i < |prs|
      ensures Judge(prs[i], topics).None? <==> '/' !in CutPull(prs[i].htmlUrl)
    {
      JudgeMeaning(prs[i], topics);
    }
  }

  /** A pull request without labels, whose repository has no topics,
      never counts. */
  lemma UnlabelledUntaggedNeverCounts(pr: PullRequest, topics: TopicLookup)
    requires pr.labels == []
    requires RepoOf(pr.htmlUrl).Some? ==>
      topics(RepoOf(pr.htmlUrl).value.0, RepoOf(pr.htmlUrl).value.1) == []
    ensures Judge(pr, topics) != Some(true)
  {
    JudgeMeaning(pr, topics);
  }
}
