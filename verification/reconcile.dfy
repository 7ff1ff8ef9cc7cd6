/** One pass of the leaderboard's polling loop (`updateStats`), as a pure
    step from the loop's state and the platform's answers to the next state
    and the calls the pass makes on the platform. */
module Reconcile {
  import opened Optional
  import opened Qualify
  import GoStrings
  import Ranking
  import Roster
  import Leaderboard

  /** The count given to a participant who has not been evaluated yet. */
  const Unevaluated: int := -1

  const ThankYou: string := "Thank you for signing up for the leaderboard"
  const RosterPath: string := "participants.txt"
  const ReadmePath: string := "README.md"

  /** Handle to count of qualifying pull requests (`participantValidPrs`). */
  type Registry = map<string, int>

  /** An open sign-up issue: its number and its author's handle. */
  datatype Issue = Issue(number: int, author: string)

  /** What the platform answers during one pass: the open-issue search (its
      reported total and the issues it returned), the pull requests found for
      each handle, the topics of each repository, the version tokens handed
      back by the two file writes, and the formatted time of the pass. */
  datatype Responses = Responses(
    total: int,
    issues: seq<Issue>,
    prs: string -> seq<PullRequest>,
    topics: TopicLookup,
    rosterToken: string,
    readmeToken: string,
    stamp: string)

  /** The loop's state: the registry and the version tokens of the two files
      it last wrote or read. */
  datatype State = State(registry: Registry, rosterToken: string, readmeToken: string)

  /** A call the pass makes that changes something on the platform. A write
      carries the version token it claims to replace. */
  datatype Effect =
    | Comment(number: int, body: string)
    | Close(number: int)
    | Write(path: string, content: string, token: string)

  /** The calls made, in order, and the next state; no next state when the
      pass panics while evaluating. */
  datatype Outcome = Outcome(effects: seq<Effect>, next: Option<State>)

  // ---------------------------------------------------------------------
  // The steps of a pass
  // ---------------------------------------------------------------------

  /** The registry the loop starts from: every known participant, not yet
      evaluated. */
  function Seed(participants: seq<string>): (r: Registry)
    ensures r.Keys == set p | p in participants
    ensures forall u :: u in r ==> r[u] == Unevaluated
  {
    map p | p in participants :: Unevaluated
  }

  /** The authors of the given issues. */
  function Authors(issues: seq<Issue>): set<string>
  {
    set i | 0 <= i < |issues| :: issues[i].author
  }

  /** Intake: every author of an open issue is set to `Unevaluated`, whether
      already known or not; every other entry is left as it was. */
  function Admit(reg: Registry, issues: seq<Issue>): (r: Registry)
    ensures r.Keys == reg.Keys + Authors(issues)
    ensures forall u :: u in r ==> r[u] == if u in Authors(issues) then Unevaluated else reg[u]
    decreases |issues|
  {
    if |issues| == 0 then reg
    else
      var r := Admit(reg[issues[0].author := Unevaluated], issues[1..]);
      assert Authors(issues) == {issues[0].author} + Authors(issues[1..]) by {
        forall u | u in Authors(issues)
          ensures u in {issues[0].author} + Authors(issues[1..])
        {
          var i :| 0 <= i < |issues| && issues[i].author == u;
          if i > 0 {
            assert issues[1..][i - 1].author == u;
          }
        }
        forall u | u in Authors(issues[1..])
          ensures u in Authors(issues)
        {
          var i :| 0 <= i < |issues[1..]| && issues[1..][i].author == u;
          assert issues[i + 1].author == u;
        }
      }
      r
  }

  /** Each issue is thanked and then closed, in order. */
  function Acknowledge(issues: seq<Issue>): (r: seq<Effect>)
    ensures |r| == 2 * |issues|
    ensures forall i :: 0 <= i < |issues| ==>
      r[2 * i] == Comment(issues[i].number, ThankYou) && r[2 * i + 1] == Close(issues[i].number)
    decreases |issues|
  {
    if |issues| == 0 then []
    else
      var tail := Acknowledge(issues[1..]);
      var head := [Comment(issues[0].number, ThankYou), Close(issues[0].number)];
      var r := head + tail;
      forall i | 0 < i < |issues|
        ensures r[2 * i] == Comment(issues[i].number, ThankYou)
        ensures r[2 * i + 1] == Close(issues[i].number)
      {
        var j := i - 1;
        assert issues[i] == issues[1..][j];
        assert r[2 * i] == tail[2 * j];
        assert r[2 * i + 1] == tail[2 * j + 1];
      }
      r
  }

  /** The counted count of every handle in `keys`; `None` when the pull
      requests of some handle make the source panic. */
  function Evaluate(keys: set<string>, prs: string -> seq<PullRequest>, topics: TopicLookup): (r: Option<Registry>)
    ensures r.None? <==> exists u :: u in keys && CountValid(prs(u), topics).None?
    ensures r.Some? ==> r.value.Keys == keys
    ensures r.Some? ==> forall u :: u in keys ==>
      CountValid(prs(u), topics) == Some(r.value[u]) && 0 <= r.value[u] <= |prs(u)|
  {
    if exists u :: u in keys && CountValid(prs(u), topics).None? then None
    else Some(map u | u in keys :: CountValid(prs(u), topics).value as int)
  }

  /** One pass of the loop. */
  function Cycle(s: State, io: Responses): Outcome
  {
    var admitted := Admit(s.registry, io.issues);
    var acks := Acknowledge(io.issues);
    var rosterWritten := io.total != 0;
    var rosterWrite :=
      if rosterWritten then [Write(RosterPath, Roster.Render(admitted.Keys), s.rosterToken)] else [];
    var rosterToken := if rosterWritten then io.rosterToken else s.rosterToken;
    match Evaluate(admitted.Keys, io.prs, io.topics)
    case None => Outcome(acks + rosterWrite, None)
    case Some(counted) =>
      var changed := counted != admitted;
      var readmeWrite :=
        if changed then [Write(ReadmePath, Leaderboard.Render(io.stamp, Ranking.Sort(counted)), s.readmeToken)] else [];
      var readmeToken := if changed then io.readmeToken else s.readmeToken;
      Outcome(acks + rosterWrite + readmeWrite, Some(State(counted, rosterToken, readmeToken)))
  }

  /** Consecutive passes, stopping at the first panic. */
  function Run(s: State, ios: seq<Responses>): Option<State>
    decreases |ios|
  {
    if |ios| == 0 then Some(s)
    else match Cycle(s, ios[0]).next
      case None => None
      case Some(s') => Run(s', ios[1..])
  }

  // ---------------------------------------------------------------------
  // What a pass writes
  // ---------------------------------------------------------------------

  /** The writes to `path` among `effects`, in order. */
  function WritesTo(effects: seq<Effect>, path: string): (w: seq<Effect>)
    ensures forall i :: 0 <= i < |w| ==> w[i].Write? && w[i].path == path
    decreases |effects|
  {
    if |effects| == 0 then []
    else
      var rest := WritesTo(effects[1..], path);
      if effects[0].Write? && effects[0].path == path then [effects[0]] + rest else rest
  }

  lemma {:induction false} WritesToAppend(a: seq<Effect>, b: seq<Effect>, path: string)
    ensures WritesTo(a + b, path) == WritesTo(a, path) + WritesTo(b, path)
    decreases |a|
  {
    if |a| > 0 {
      assert (a + b)[1..] == a[1..] + b;
      WritesToAppend(a[1..], b, path);
    } else {
      assert a + b == b;
    }
  }

  lemma {:induction false} AcknowledgeWritesNothing(issues: seq<Issue>, path: string)
    ensures WritesTo(Acknowledge(issues), path) == []
    decreases |issues|
  {
    if |issues| > 0 {
      var acks := Acknowledge(issues);
      AcknowledgeWritesNothing(issues[1..], path);
      assert acks[2..] == Acknowledge(issues[1..]);
      assert acks[1..][1..] == acks[2..];
    }
  }

  // ---------------------------------------------------------------------
  // Properties of a pass
  // ---------------------------------------------------------------------

  /** A pass that completes keeps every participant it knew and adds every
      author of an open issue, and nobody else. */
  lemma CycleKeepsParticipants(s: State, io: Responses)
    ensures Cycle(s, io).next.Some? ==>
      Cycle(s, io).next.value.registry.Keys == s.registry.Keys + Authors(io.issues)
  {
  }

  /** After a completed pass every participant's count is the number of
      their pull requests that qualify: between zero and the number of pull
      requests found, so never `Unevaluated`. */
  lemma CycleCountsInRange(s: State, io: Responses)
    ensures Cycle(s, io).next.Some? ==>
      var reg := Cycle(s, io).next.value.registry;
      forall u :: u in reg ==>
        && CountValid(io.prs(u), io.topics) == Some(reg[u])
        && 0 <= reg[u] <= |io.prs(u)|
        && reg[u] != Unevaluated
  {
  }

  /** A pass panics exactly when some participant, old or new, has a pull
      request whose URL names no repository. */
  lemma CyclePanics(s: State, io: Responses)
    ensures Cycle(s, io).next.None? <==>
      exists u :: u in s.registry.Keys + Authors(io.issues) &&
        exists i :: 0 <= i < |io.prs(u)| && '/' !in CutPull(io.prs(u)[i].htmlUrl)
  {
    forall u | u in s.registry.Keys + Authors(io.issues)
      ensures CountValid(io.prs(u), io.topics).None? <==>
        exists i :: 0 <= i < |io.prs(u)| && '/' !in CutPull(io.prs(u)[i].htmlUrl)
    {
      CountPanics(io.prs(u), io.topics);
    }
  }

  /** The writes among a single call. */
  lemma WritesToOne(e: Effect, path: string)
    ensures WritesTo([e], path) == if e.Write? && e.path == path then [e] else []
  {
    assert [e][1..] == [];
  }

  /** The calls of a pass: the acknowledgements, then the roster write if
      any, then the leaderboard write if any. */
  lemma CycleEffects(s: State, io: Responses)
    ensures
      var admitted := Admit(s.registry, io.issues);
      var o := Cycle(s, io);
      var rosterWrite :=
        if io.total != 0 then [Write(RosterPath, Roster.Render(admitted.Keys), s.rosterToken)] else [];
      && (o.next.None? ==> o.effects == Acknowledge(io.issues) + rosterWrite)
      && (o.next.Some? ==>
            var counted := o.next.value.registry;
            o.effects == Acknowledge(io.issues) + rosterWrite +
              (if counted != admitted
               then [Write(ReadmePath, Leaderboard.Render(io.stamp, Ranking.Sort(counted)), s.readmeToken)]
               else []))
  {
  }

  /** The roster is written once exactly when the issue search reports a
      non-zero total, with every known handle after intake in sorted order,
      replacing the last token; the token handed back becomes the new one. */
  lemma CycleRosterWrite(s: State, io: Responses)
    ensures WritesTo(Cycle(s, io).effects, RosterPath) ==
      if io.total != 0
      then [Write(RosterPath, Roster.Render(s.registry.Keys + Authors(io.issues)), s.rosterToken)]
      else []
    ensures Cycle(s, io).next.Some? ==>
      Cycle(s, io).next.value.rosterToken == if io.total != 0 then io.rosterToken else s.rosterToken
  {
    var admitted := Admit(s.registry, io.issues);
    var o := Cycle(s, io);
    var acks := Acknowledge(io.issues);
    var rosterWrite :=
      if io.total != 0 then [Write(RosterPath, Roster.Render(admitted.Keys), s.rosterToken)] else [];
    assert admitted.Keys == s.registry.Keys + Authors(io.issues);
    CycleEffects(s, io);
    AcknowledgeWritesNothing(io.issues, RosterPath);
    WritesToAppend(acks, rosterWrite, RosterPath);
    if io.total != 0 {
      WritesToOne(rosterWrite[0], RosterPath);
    }
    assert WritesTo(acks + rosterWrite, RosterPath) == rosterWrite;
    if o.next.Some? {
      var counted := o.next.value.registry;
      var readmeWrite :=
        if counted != admitted
        then [Write(ReadmePath, Leaderboard.Render(io.stamp, Ranking.Sort(counted)), s.readmeToken)]
        else [];
      assert o.effects == acks + rosterWrite + readmeWrite;
      WritesToAppend(acks + rosterWrite, readmeWrite, RosterPath);
      if counted != admitted {
        WritesToOne(readmeWrite[0], RosterPath);
      }
      assert WritesTo(readmeWrite, RosterPath) == [];
      assert WritesTo(o.effects, RosterPath) == rosterWrite;
    } else {
      assert o.effects == acks + rosterWrite;
    }
  }

  /** The leaderboard is written once exactly when a completed pass counts
      differently from the registry after intake, with the ranking of the
      new counts, replacing the last token; the token handed back becomes
      the new one. A pass that panics does not write it. */
  lemma CycleLeaderboardWrite(s: State, io: Responses)
    ensures Cycle(s, io).next.None? ==> WritesTo(Cycle(s, io).effects, ReadmePath) == []
    ensures Cycle(s, io).next.Some? ==>
      var next := Cycle(s, io).next.value;
      var changed := next.registry != Admit(s.registry, io.issues);
      && WritesTo(Cycle(s, io).effects, ReadmePath) ==
           (if changed
            then [Write(ReadmePath, Leaderboard.Render(io.stamp, Ranking.Sort(next.registry)), s.readmeToken)]
            else [])
      && next.readmeToken == if changed then io.readmeToken else s.readmeToken
  {
    var admitted := Admit(s.registry, io.issues);
    var o := Cycle(s, io);
    var acks := Acknowledge(io.issues);
    var rosterWrite :=
      if io.total != 0 then [Write(RosterPath, Roster.Render(admitted.Keys), s.rosterToken)] else [];
    CycleEffects(s, io);
    AcknowledgeWritesNothing(io.issues, ReadmePath);
    WritesToAppend(acks, rosterWrite, ReadmePath);
    if io.total != 0 {
      WritesToOne(rosterWrite[0], ReadmePath);
    }
    assert WritesTo(acks + rosterWrite, ReadmePath) == [];
    if o.next.Some? {
      var counted := o.next.value.registry;
      var readmeWrite :=
        if counted != admitted
        then [Write(ReadmePath, Leaderboard.Render(io.stamp, Ranking.Sort(counted)), s.readmeToken)]
        else [];
      assert o.effects == acks + rosterWrite + readmeWrite;
      WritesToAppend(acks + rosterWrite, readmeWrite, ReadmePath);
      if counted != admitted {
        WritesToOne(readmeWrite[0], ReadmePath);
      }
      assert WritesTo(readmeWrite, ReadmePath) == readmeWrite;
      assert WritesTo(o.effects, ReadmePath) == readmeWrite;
    } else {
      assert o.effects == acks + rosterWrite;
    }
  }

  /** A pass that admits at least one sign-up and completes always rewrites
      the leaderboard: intake marks the author `Unevaluated`, and no count is. */
  lemma SignUpForcesLeaderboard(s: State, io: Responses)
    requires |io.issues| > 0
    ensures Cycle(s, io).next.Some? ==> |WritesTo(Cycle(s, io).effects, ReadmePath)| == 1
  {
    if Cycle(s, io).next.Some? {
      var u := io.issues[0].author;
      assert u in Authors(io.issues);
      var admitted := Admit(s.registry, io.issues);
      var next := Cycle(s, io).next.value;
      CycleCountsInRange(s, io);
      assert admitted[u] == Unevaluated && next.registry[u] != Unevaluated;
      CycleLeaderboardWrite(s, io);
    }
  }

  /** The first pass over a non-empty registry of unevaluated participants,
      if it completes, always writes the leaderboard. */
  lemma FirstCycleWritesLeaderboard(s: State, io: Responses)
    requires |s.registry| > 0
    requires forall u :: u in s.registry ==> s.registry[u] == Unevaluated
    ensures Cycle(s, io).next.Some? ==> |WritesTo(Cycle(s, io).effects, ReadmePath)| == 1
  {
    if Cycle(s, io).next.Some? {
      var u :| u in s.registry;
      var admitted := Admit(s.registry, io.issues);
      var next := Cycle(s, io).next.value;
      CycleCountsInRange(s, io);
      assert admitted[u] == Unevaluated && next.registry[u] != Unevaluated;
      CycleLeaderboardWrite(s, io);
    }
  }

  /** Without sign-ups, a pass whose counts equal the registry's writes
      nothing and makes no call at all. */
  lemma UnchangedIsQuiet(s: State, io: Responses)
    requires io.total == 0 && io.issues == []
    requires Cycle(s, io).next.Some? && Cycle(s, io).next.value.registry == s.registry
    ensures Cycle(s, io).effects == []
    ensures Cycle(s, io).next == Some(s)
  {
    assert Admit(s.registry, io.issues) == s.registry;
  }

  /** Once a pass without sign-ups completes, repeating it with the same
      answers changes nothing and makes no call: the loop settles. */
  lemma SecondPassIsQuiet(s: State, io: Responses)
    requires io.total == 0 && io.issues == []
    requires Cycle(s, io).next.Some?
    ensures var s' := Cycle(s, io).next.value;
      Cycle(s', io).effects == [] && Cycle(s', io).next == Some(s')
  {
    var s' := Cycle(s, io).next.value;
    assert Admit(s.registry, io.issues) == s.registry;
    assert Admit(s'.registry, io.issues) == s'.registry;
    assert s'.registry.Keys == s.registry.Keys;
  }

  /** However many passes run, no participant is ever dropped. */
  lemma {:induction false} RunKeepsParticipants(s: State, ios: seq<Responses>)
    ensures Run(s, ios).Some? ==> s.registry.Keys <= Run(s, ios).value.registry.Keys
    decreases |ios|
  {
    if |ios| > 0 && Cycle(s, ios[0]).next.Some? {
      var s' := Cycle(s, ios[0]).next.value;
      CycleKeepsParticipants(s, ios[0]);
      RunKeepsParticipants(s', ios[1..]);
    }
  }

  /** Reading back a written roster restores the registry's handles, as the
      loop's start does from `participants.txt`, provided each handle is
      clean. */
  lemma RosterRestoresRegistry(reg: Registry)
    requires forall u :: u in reg ==> Roster.Clean(u)
    ensures Seed(Roster.Parse(Roster.Render(reg.Keys))).Keys == reg.Keys
  {
    Roster.ParseRender(reg.Keys);
  }

  /** A first sign-up: the issue is thanked and closed, and the roster is
      rewritten to hold the new handle. */
  lemma SignUpExample(s: State, io: Responses)
    requires s.registry == map[] && io.total == 1 && io.issues == [Issue(7, "erin")]
    ensures |Cycle(s, io).effects| >= 3
    ensures Cycle(s, io).effects[..3] ==
      [Comment(7, ThankYou), Close(7), Write(RosterPath, "erin\n", s.rosterToken)]
    ensures Cycle(s, io).next.Some? ==> Cycle(s, io).next.value.registry.Keys == {"erin"}
  {
    var admitted := Admit(s.registry, io.issues);
    assert Authors(io.issues) == {"erin"} by {
      assert io.issues[0].author == "erin";
    }
    assert admitted.Keys == {"erin"};
    var sorted := Roster.SortedHandles(admitted.Keys);
    assert sorted == ["erin"] by {
      assert |sorted| == 1 && sorted[0] in admitted.Keys;
    }
    assert Roster.Render(admitted.Keys) == "erin\n" by {
      assert sorted[1..] == [];
      assert GoStrings.Terminated(sorted) == "erin" + "\n" + GoStrings.Terminated([]);
    }
    var acks := Acknowledge(io.issues);
    assert acks == [Comment(7, ThankYou), Close(7)];
    CycleEffects(s, io);
  }
}
