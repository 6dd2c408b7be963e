/**
  The decisions of the Git synchroniser (`Integrity::SCM::Git`).

  Everything the synchroniser learns from the outside world (whether the
  `.git` directory is there, what `git symbolic-ref HEAD` and `git branch`
  print) is an input, collected in an `Observation`. `Decide` reads those
  answers with the parsers of `GitOutput` and settles the four choices a
  run makes; the run itself is a trace of events built from the choices
  alone: log lines, the questions it asks, the git commands it issues, and
  the single hand-over to the caller's action.
 */
module GitSync {
  import opened Wrappers
  import opened GitOutput

  /** A repository reference (`Git.new(uri, branch, working_directory)`):
      locator, branch and working directory, fixed at construction and never
      changed afterwards. */
  datatype Repo = Repo(uri: string, branch: string, workingDirectory: string)

  /** What the shell reports during one `with_revision` call, in the order it
      is asked. `git branch` is asked separately by each checkout that has no
      explicit treeish, and its answer may differ between the two. */
  datatype Observation = Observation(
    gitDirExists: bool,
    headRef: string,
    branchesAtSync: string,
    branchesAtRevision: string)

  /** A question put to the file system or to git; it changes nothing. */
  datatype Probe =
    | GitDirExists(dir: string)
    | SymbolicRef(dir: string)
    | ListBranches(dir: string)

  /** A git command that changes the working tree. */
  datatype Command =
    | Clone(uri: string, dir: string)
    | Checkout(dir: string, argument: string)
    | Pull(dir: string)

  datatype Event =
    | Log(message: string)
    | Ask(probe: Probe)
    | Run(command: Command)
    | Yield

  // ---------------------------------------------------------------------------
  // Decisions
  // ---------------------------------------------------------------------------

  /** The four choices of one run: is the tree cloned, is HEAD on the
      configured branch, how the fetch phase checks the branch out (if it
      does), and how the revision is checked out. */
  datatype Decisions = Decisions(
    cloned: bool,
    onBranch: bool,
    syncStrategy: Strategy,
    revisionStrategy: Strategy)

  /** Choices a run of `g` can make: the fetch phase always checks out the
      configured branch (no treeish is passed to it), and so does the
      revision checkout unless it names a treeish. */
  predicate Consistent(g: Repo, d: Decisions) {
    && !d.syncStrategy.Treeish? && d.syncStrategy.name == g.branch
    && (d.revisionStrategy.Treeish? || d.revisionStrategy.name == g.branch)
  }

  /** The choices `with_revision(revision)` makes from what it observes. */
  function Decide(g: Repo, revision: Option<string>, obs: Observation): (d: Decisions)
    ensures Consistent(g, d)
    ensures d.revisionStrategy.Treeish? <==> revision.Some?
    ensures revision.Some? ==> Argument(d.revisionStrategy) == revision.value
    ensures d.syncStrategy.LocalBranch? <==> g.branch in LocalBranches(obs.branchesAtSync)
    ensures revision.None? ==>
      (d.revisionStrategy.LocalBranch? <==> g.branch in LocalBranches(obs.branchesAtRevision))
  {
    Decisions(
      obs.gitDirExists,
      OnBranch(obs.headRef, g.branch),
      ChooseStrategy(g.branch, None, obs.branchesAtSync),
      ChooseStrategy(g.branch, revision, obs.branchesAtRevision))
  }

  // ---------------------------------------------------------------------------
  // Event traces
  // ---------------------------------------------------------------------------

  /** The log line each command is announced with. */
  function Announce(c: Command): (r: string)
    ensures c.Clone? <==> "Cloning " <= r
    ensures c.Checkout? <==> "Checking-out " <= r
    ensures c.Pull? <==> "Pull-ing in " <= r
    ensures c.Clone? ==> r[8..] == c.uri + " to " + c.dir
    ensures c.Checkout? ==> r[13..] == c.argument
    ensures c.Pull? ==> r[12..] == c.dir
  {
    var r := match c
      case Clone(u, d) =>
        var r := "Cloning " + (u + " to " + d);
        assert r[8..] == u + " to " + d;
        r
      case Checkout(_, a) => "Checking-out " + a
      case Pull(d) => "Pull-ing in " + d;
    assert "Cloning " <= r ==> r[..2] == "Cl";
    assert "Checking-out " <= r ==> r[..2] == "Ch";
    assert "Pull-ing in " <= r ==> r[..2] == "Pu";
    r
  }

  /** A command preceded by its announcement. */
  function Step(c: Command): seq<Event> {
    [Log(Announce(c)), Run(c)]
  }

  /** The commands of a trace, in order, everything else dropped. */
  function Commands(t: seq<Event>): (r: seq<Command>)
    ensures |r| <= |t|
  {
    if t == [] then []
    else
      assert t == [t[0]] + t[1..];
      (if t[0].Run? then [t[0].command] else []) + Commands(t[1..])
  }

  /** The log lines of a trace, in order. */
  function Logs(t: seq<Event>): (r: seq<string>)
    ensures |r| <= |t|
  {
    if t == [] then []
    else (if t[0].Log? then [t[0].message] else []) + Logs(t[1..])
  }

  /** The announcements of a list of commands, in order. */
  function Announcements(cs: seq<Command>): (r: seq<string>)
    ensures |r| == |cs|
  {
    if cs == [] then [] else [Announce(cs[0])] + Announcements(cs[1..])
  }

  /** Log lines and commands come in adjacent pairs: each log line is
      immediately followed by the command it announces, and no command
      appears without its log line just before it. */
  predicate Announced(t: seq<Event>)
    decreases |t|
  {
    if t == [] then true
    else if t[0].Log? then
      |t| >= 2 && t[1].Run? && t[0].message == Announce(t[1].command) && Announced(t[2..])
    else !t[0].Run? && Announced(t[1..])
  }

  /** A trace whose last event is its only hand-over. */
  predicate HandsOverLast(t: seq<Event>) {
    t != [] && t[|t| - 1] == Yield && Yield !in t[..|t| - 1]
  }

  /** An event aimed at the working tree `dir`; a clone also fetches from
      `uri`. Log lines and the hand-over are aimed at nothing. */
  predicate Aimed(e: Event, uri: string, dir: string) {
    match e
    case Run(Clone(u, d)) => u == uri && d == dir
    case Run(c) => c.dir == dir
    case Ask(p) => p.dir == dir
    case _ => true
  }

  /** Every command and every probe of a trace is aimed at `dir`. */
  predicate Targets(t: seq<Event>, uri: string, dir: string)
    decreases |t|
  {
    t == [] || (Aimed(t[0], uri, dir) && Targets(t[1..], uri, dir))
  }

  // ---------------------------------------------------------------------------
  // Plans: what each method of the synchroniser does, in order
  // ---------------------------------------------------------------------------

  /** One thing a method of the synchroniser does: ask a question, issue a
      command (which it first announces in the log), or hand over to the
      caller's action. */
  datatype Action =
    | Query(probe: Probe)
    | Issue(command: Command)
    | HandOver

  /** The events one action produces. */
  function Perform(a: Action): seq<Event> {
    match a
    case Query(p) => [Ask(p)]
    case Issue(c) => Step(c)
    case HandOver => [Yield]
  }

  /** The events of a plan: each action's events, in order. */
  function Trace(plan: seq<Action>): seq<Event> {
    if plan == [] then [] else Perform(plan[0]) + Trace(plan[1..])
  }

  /** The commands a plan issues, in order. */
  function Issued(plan: seq<Action>): seq<Command> {
    if plan == [] then []
    else (if plan[0].Issue? then [plan[0].command] else []) + Issued(plan[1..])
  }

  /** A plan that stays inside the repository `g` and does not hand over. */
  predicate Local(plan: seq<Action>, g: Repo) {
    forall i :: 0 <= i < |plan| ==>
      plan[i] != HandOver && Targets(Perform(plan[i]), g.uri, g.workingDirectory)
  }

  /** `checkout(treeish)` with the strategy already chosen: the `git branch`
      question unless a treeish was given, then the checkout. */
  function CheckoutPlan(g: Repo, s: Strategy): (p: seq<Action>)
    ensures Issued(p) == [Checkout(g.workingDirectory, Argument(s))]
    ensures Query(ListBranches(g.workingDirectory)) in p <==> !s.Treeish?
    ensures Local(p, g)
  {
    var dir := g.workingDirectory;
    var c := Issue(Checkout(dir, Argument(s)));
    ActionFacts(c, g);
    if s.Treeish? then [c]
    else
      var q := Query(ListBranches(dir));
      ActionFacts(q, g);
      IssuedPair(q, c);
      [q, c]
  }

  /** `clone unless cloned?`: the `.git` question, then a clone if it failed. */
  function CloneUnlessCloned(g: Repo, cloned: bool): (p: seq<Action>)
    ensures Issued(p) == if cloned then [] else [Clone(g.uri, g.workingDirectory)]
    ensures Local(p, g)
  {
    var dir := g.workingDirectory;
    var q := Query(GitDirExists(dir));
    var c := Issue(Clone(g.uri, dir));
    ActionFacts(q, g);
    ActionFacts(c, g);
    if cloned then [q]
    else
      IssuedPair(q, c);
      [q, c]
  }

  /** `checkout unless on_branch?`: the symbolic-ref question, then a
      checkout of the configured branch if HEAD is elsewhere. */
  function CheckoutUnlessOnBranch(g: Repo, onBranch: bool, s: Strategy): (p: seq<Action>)
    ensures Issued(p) == if onBranch then [] else [Checkout(g.workingDirectory, Argument(s))]
    ensures Local(p, g)
  {
    var q := Query(SymbolicRef(g.workingDirectory));
    ActionFacts(q, g);
    if onBranch then [q]
    else
      var k := CheckoutPlan(g, s);
      IssuedAppend([q], k);
      LocalAppend([q], k, g);
      [q] + k
  }

  /** The commands of the fetch phase, in order: a clone only if the tree is
      not cloned, a checkout of the configured branch only if HEAD is not on
      it, and a pull always, last. */
  function FetchCommands(g: Repo, d: Decisions): seq<Command> {
    (if d.cloned then [] else [Clone(g.uri, g.workingDirectory)])
    + (if d.onBranch then [] else [Checkout(g.workingDirectory, Argument(d.syncStrategy))])
    + [Pull(g.workingDirectory)]
  }

  /** `fetch_code`: clone unless cloned, checkout unless on the branch, pull. */
  function FetchPlan(g: Repo, d: Decisions): (p: seq<Action>)
    ensures Issued(p) == FetchCommands(g, d)
    ensures Local(p, g)
    ensures p != [] && p[|p| - 1] == Issue(Pull(g.workingDirectory))
  {
    var pull := Issue(Pull(g.workingDirectory));
    var a := CloneUnlessCloned(g, d.cloned);
    var b := CheckoutUnlessOnBranch(g, d.onBranch, d.syncStrategy);
    ActionFacts(pull, g);
    IssuedAppend(a, b);
    IssuedAppend(a + b, [pull]);
    LocalAppend(a, b, g);
    LocalAppend(a + b, [pull], g);
    a + b + [pull]
  }

  /** The commands `with_revision` runs before handing over: fetch, then
      check out the revision. */
  function PreparePlan(g: Repo, d: Decisions): (p: seq<Action>)
    ensures Issued(p) == FetchCommands(g, d) + [Checkout(g.workingDirectory, Argument(d.revisionStrategy))]
    ensures Local(p, g)
  {
    var f := FetchPlan(g, d);
    var k := CheckoutPlan(g, d.revisionStrategy);
    IssuedAppend(f, k);
    LocalAppend(f, k, g);
    f + k
  }

  /** `fetch_code` as the events it produces. */
  function FetchCode(g: Repo, d: Decisions): (t: seq<Event>)
    ensures Commands(t) == FetchCommands(g, d)
    ensures Announced(t) && Targets(t, g.uri, g.workingDirectory) && Yield !in t
    ensures t != [] && t[|t| - 1] == Run(Pull(g.workingDirectory))
  {
    var p := FetchPlan(g, d);
    LocalTrace(p, g);
    var pre := p[..|p| - 1];
    assert p == pre + [Issue(Pull(g.workingDirectory))];
    TraceAppend(pre, [Issue(Pull(g.workingDirectory))]);
    TraceSingle(Issue(Pull(g.workingDirectory)));
    Trace(p)
  }

  /** One run with its choices made: fetch, check out the revision, then hand
      over to the action. */
  function Sync(g: Repo, d: Decisions): (t: seq<Event>)
    ensures Commands(t) == FetchCommands(g, d) + [Checkout(g.workingDirectory, Argument(d.revisionStrategy))]
    ensures Announced(t) && Targets(t, g.uri, g.workingDirectory)
    ensures HandsOverLast(t)
  {
    var pre := PreparePlan(g, d);
    HandOverLast(pre, g);
    Trace(pre + [HandOver])
  }

  /** `with_revision(revision) { action }`. */
  function WithRevision(g: Repo, revision: Option<string>, obs: Observation): (t: seq<Event>)
    ensures Commands(t) == FetchCommands(g, Decide(g, revision, obs))
      + [Checkout(g.workingDirectory, Argument(ChooseStrategy(g.branch, revision, obs.branchesAtRevision)))]
    ensures Announced(t) && Targets(t, g.uri, g.workingDirectory)
    ensures HandsOverLast(t)
  {
    Sync(g, Decide(g, revision, obs))
  }

  // ---------------------------------------------------------------------------
  // From plans to traces
  // ---------------------------------------------------------------------------

  lemma IssuedSingle(a: Action)
    ensures Issued([a]) == if a.Issue? then [a.command] else []
  {
    assert [a][1..] == [];
  }

  lemma IssuedPair(a: Action, b: Action)
    requires !a.Issue? && b.Issue?
    ensures Issued([a, b]) == [b.command]
  {
    assert [a, b][1..] == [b];
    IssuedSingle(b);
  }

  lemma {:induction false} IssuedAppend(p: seq<Action>, q: seq<Action>)
    ensures Issued(p + q) == Issued(p) + Issued(q)
  {
    if p == [] {
      assert p + q == q;
    } else {
      assert (p + q)[0] == p[0];
      assert (p + q)[1..] == p[1..] + q;
      IssuedAppend(p[1..], q);
    }
  }

  /** What one action contributes on its own. */
  lemma ActionFacts(a: Action, g: Repo)
    requires a.Query? ==> a.probe.dir == g.workingDirectory
    requires a.Issue? ==> Aimed(Run(a.command), g.uri, g.workingDirectory)
    ensures Issued([a]) == if a.Issue? then [a.command] else []
    ensures Local([a], g) <==> !a.HandOver?
  {
    IssuedSingle(a);
    if a.Issue? {
      StepTargets(a.command, g.uri, g.workingDirectory);
    } else if a.Query? {
      ProbeFacts(a.probe, g.uri);
    }
  }

  lemma LocalAppend(p: seq<Action>, q: seq<Action>, g: Repo)
    requires Local(p, g) && Local(q, g)
    ensures Local(p + q, g)
  {
    forall i | 0 <= i < |p + q|
      ensures (p + q)[i] != HandOver && Targets(Perform((p + q)[i]), g.uri, g.workingDirectory)
    {
      if i < |p| {
        assert (p + q)[i] == p[i];
      } else {
        assert (p + q)[i] == q[i - |p|];
      }
    }
  }

  lemma TraceSingle(a: Action)
    ensures Trace([a]) == Perform(a)
  {
    assert [a][1..] == [];
  }

  lemma {:induction false} TraceAppend(p: seq<Action>, q: seq<Action>)
    ensures Trace(p + q) == Trace(p) + Trace(q)
  {
    if p == [] {
      assert p + q == q;
    } else {
      assert (p + q)[0] == p[0];
      assert (p + q)[1..] == p[1..] + q;
      TraceAppend(p[1..], q);
    }
  }

  /** The trace of a local plan stays inside the repository and never hands
      over. */
  lemma {:induction false} LocalTrace(p: seq<Action>, g: Repo)
    requires Local(p, g)
    ensures Announced(Trace(p)) && Commands(Trace(p)) == Issued(p)
    ensures Targets(Trace(p), g.uri, g.workingDirectory) && Yield !in Trace(p)
  {
    TraceFacts(p);
    if p != [] {
      assert forall i :: 0 <= i < |p| - 1 ==> p[1..][i] == p[i + 1];
      LocalTrace(p[1..], g);
      assert p[0] != HandOver && Targets(Perform(p[0]), g.uri, g.workingDirectory);
      TargetsAppend(Perform(p[0]), Trace(p[1..]), g.uri, g.workingDirectory);
      assert Yield !in Perform(p[0]);
    }
  }

  /** A local plan followed by the hand-over: its trace ends with the only
      hand-over, and keeps the plan's commands and targets. */
  lemma HandOverLast(pre: seq<Action>, g: Repo)
    requires Local(pre, g)
    ensures var t := Trace(pre + [HandOver]);
      && Commands(t) == Issued(pre) && Announced(t) && Targets(t, g.uri, g.workingDirectory)
      && HandsOverLast(t)
  {
    var p := pre + [HandOver];
    LocalTrace(pre, g);
    TraceAppend(pre, [HandOver]);
    TraceSingle(HandOver);
    IssuedAppend(pre, [HandOver]);
    IssuedSingle(HandOver);
    TraceFacts(p);
    assert Targets([Yield], g.uri, g.workingDirectory) by {
      assert [Yield][1..] == [];
    }
    TargetsAppend(Trace(pre), [Yield], g.uri, g.workingDirectory);
    var t := Trace(p);
    assert t[..|t| - 1] == Trace(pre);
  }

  /** Every plan's trace announces each command just before it runs, and
      its commands are the commands the plan issues. */
  lemma {:induction false} TraceFacts(p: seq<Action>)
    ensures Announced(Trace(p)) && Commands(Trace(p)) == Issued(p)
  {
    if p != [] {
      TraceFacts(p[1..]);
      var rest := Trace(p[1..]);
      match p[0] {
        case Query(q) =>
          ProbeFacts(q, "");
          AnnouncedSingle(Ask(q), rest);
        case Issue(c) =>
          StepFacts(c);
          AnnouncedPair(Log(Announce(c)), Run(c), rest);
        case HandOver =>
          assert Commands([Yield]) == [] by {
            assert [Yield][1..] == [];
          }
          AnnouncedSingle(Yield, rest);
      }
      CommandsAppend(Perform(p[0]), rest);
    }
  }

  // ---------------------------------------------------------------------------
  // Trace algebra
  // ---------------------------------------------------------------------------

  lemma CommandsStep(c: Command)
    ensures Commands(Step(c)) == [c]
  {
    assert Step(c)[1..] == [Run(c)];
    assert [Run(c)][1..] == [];
  }

  /** The commands of a concatenation are the concatenated commands. */
  lemma {:induction false} CommandsAppend(a: seq<Event>, b: seq<Event>)
    ensures Commands(a + b) == Commands(a) + Commands(b)
  {
    if a == [] {
      assert a + b == b;
    } else {
      assert (a + b)[0] == a[0];
      assert (a + b)[1..] == a[1..] + b;
      CommandsAppend(a[1..], b);
    }
  }

  /** A log line and the command it announces, in front of an announced trace. */
  lemma AnnouncedPair(e: Event, f: Event, rest: seq<Event>)
    requires e.Log? && f.Run? && e.message == Announce(f.command) && Announced(rest)
    ensures Announced([e, f] + rest)
  {
    var t := [e, f] + rest;
    assert t[0] == e && t[1] == f && t[2..] == rest;
  }

  /** A probe or the hand-over in front of an announced trace. */
  lemma AnnouncedSingle(e: Event, rest: seq<Event>)
    requires !e.Log? && !e.Run? && Announced(rest)
    ensures Announced([e] + rest)
  {
    assert ([e] + rest)[1..] == rest;
  }

  lemma {:induction false} TargetsAppend(a: seq<Event>, b: seq<Event>, uri: string, dir: string)
    requires Targets(a, uri, dir) && Targets(b, uri, dir)
    ensures Targets(a + b, uri, dir)
    decreases |a|
  {
    if a == [] {
      assert a + b == b;
    } else {
      assert (a + b)[0] == a[0];
      assert (a + b)[1..] == a[1..] + b;
      TargetsAppend(a[1..], b, uri, dir);
    }
  }

  /** A probe on its own: no command, nothing to announce, aimed at `dir`. */
  lemma ProbeFacts(p: Probe, uri: string)
    ensures Commands([Ask(p)]) == [] && Announced([Ask(p)]) && Targets([Ask(p)], uri, p.dir)
  {
    assert [Ask(p)][1..] == [];
  }

  /** An announced command on its own. */
  lemma StepFacts(c: Command)
    ensures Commands(Step(c)) == [c] && Announced(Step(c))
  {
    CommandsStep(c);
    assert Step(c)[1..] == [Run(c)];
    assert Step(c)[2..] == [];
  }

  lemma StepTargets(c: Command, uri: string, dir: string)
    requires Aimed(Run(c), uri, dir)
    ensures Targets(Step(c), uri, dir)
  {
    assert Step(c)[1..] == [Run(c)];
    assert [Run(c)][1..] == [];
  }

  // ---------------------------------------------------------------------------
  // Properties of the traces
  // ---------------------------------------------------------------------------

  /** In an announced trace the log lines are exactly the commands'
      announcements, one per command, in the same order. */
  lemma {:induction false} AnnouncedLogs(t: seq<Event>)
    requires Announced(t)
    ensures Logs(t) == Announcements(Commands(t))
    decreases |t|
  {
    if t != [] {
      if t[0].Log? {
        var u := t[2..];
        AnnouncedLogs(u);
        var v := t[1..];
        assert v[0] == t[1] && v[1..] == u;
        var cs := [t[1].command] + Commands(u);
        assert Commands(t) == Commands(v) == cs;
        assert Logs(t) == [t[0].message] + Logs(v);
        assert Logs(v) == Logs(u);
        assert cs[0] == t[1].command && cs[1..] == Commands(u);
      } else {
        AnnouncedLogs(t[1..]);
        assert Logs(t) == Logs(t[1..]);
        assert Commands(t) == Commands(t[1..]);
      }
    }
  }

  /** Index-wise reading of `Announced`: no trace starts with a command or
      ends with a log line, and at every pair of neighbours a command is
      preceded by its own announcement and a log line is followed by the
      command it announces. */
  ghost predicate Paired(t: seq<Event>) {
    && (t != [] ==> !t[0].Run? && !t[|t| - 1].Log?)
    && (forall i, j :: 0 <= i < j < |t| && j == i + 1 ==>
          (t[j].Run? ==> t[i] == Log(Announce(t[j].command)))
          && (t[i].Log? ==> t[j].Run? && t[i] == Log(Announce(t[j].command))))
  }
  lemma {:induction false} AnnouncedIffPaired(t: seq<Event>)
    ensures Announced(t) <==> Paired(t)
    decreases |t|
  {
    if t == [] {
    } else if |t| == 1 {
    } else if t[0].Log? {
      AnnouncedIffPaired(t[2..]);
      if Announced(t) { LogPairedOfAnnounced(t); }
      if Paired(t) { LogAnnouncedOfPaired(t); }
    } else {
      AnnouncedIffPaired(t[1..]);
      if Announced(t) { OtherPairedOfAnnounced(t); }
      if Paired(t) { OtherAnnouncedOfPaired(t); }
    }
  }

  /** A log line and its command in front of a paired trace keep it paired. */
  lemma LogPairedOfAnnounced(t: seq<Event>)
    requires |t| >= 2 && t[0].Log? && Announced(t) && Paired(t[2..])
    ensures Paired(t)
  {
    var u := t[2..];
    forall i, j | 0 <= i < j < |t| && j == i + 1
      ensures (t[j].Run? ==> t[i] == Log(Announce(t[j].command)))
        && (t[i].Log? ==> t[j].Run? && t[i] == Log(Announce(t[j].command)))
    {
      if i >= 2 {
        assert t[i] == u[i - 2] && t[j] == u[j - 2];
      } else if i == 1 && |u| > 0 {
        assert t[j] == u[0];
      }
    }
  }

  /** A paired trace starting with a log line is that line, its command and
      a paired rest. */
  lemma LogAnnouncedOfPaired(t: seq<Event>)
    requires |t| >= 2 && t[0].Log? && Paired(t) && (Paired(t[2..]) ==> Announced(t[2..]))
    ensures Announced(t)
  {
    var u := t[2..];
    assert t[1].Run? && t[0] == Log(Announce(t[1].command));
    if u != [] {
      assert u[0] == t[2] && u[|u| - 1] == t[|t| - 1];
      assert t[1].Run?;
      assert !t[2].Run?;
    }
    forall i, j | 0 <= i < j < |u| && j == i + 1
      ensures (u[j].Run? ==> u[i] == Log(Announce(u[j].command)))
        && (u[i].Log? ==> u[j].Run? && u[i] == Log(Announce(u[j].command)))
    {
      assert u[i] == t[i + 2] && u[j] == t[j + 2];
    }
  }

  /** An event other than a log line or command in front of a paired trace
      keeps it paired. */
  lemma OtherPairedOfAnnounced(t: seq<Event>)
    requires |t| >= 2 && !t[0].Log? && Announced(t) && Paired(t[1..])
    ensures Paired(t)
  {
    var u := t[1..];
    forall i, j | 0 <= i < j < |t| && j == i + 1
      ensures (t[j].Run? ==> t[i] == Log(Announce(t[j].command)))
        && (t[i].Log? ==> t[j].Run? && t[i] == Log(Announce(t[j].command)))
    {
      if i >= 1 {
        assert t[i] == u[i - 1] && t[j] == u[j - 1];
      } else {
        assert t[j] == u[0];
      }
    }
  }

  /** A paired trace not starting with a log line has a paired rest. */
  lemma OtherAnnouncedOfPaired(t: seq<Event>)
    requires |t| >= 2 && !t[0].Log? && Paired(t) && (Paired(t[1..]) ==> Announced(t[1..]))
    ensures Announced(t)
  {
    var u := t[1..];
    assert u[0] == t[1] && u[|u| - 1] == t[|t| - 1];
    assert !t[1].Run?;
    forall i, j | 0 <= i < j < |u| && j == i + 1
      ensures (u[j].Run? ==> u[i] == Log(Announce(u[j].command)))
        && (u[i].Log? ==> u[j].Run? && u[i] == Log(Announce(u[j].command)))
    {
      assert u[i] == t[i + 1] && u[j] == t[j + 1];
    }
  }

  /** `Targets` read index-wise: every event of the trace is aimed at the
      repository's working tree, and every clone at its locator. */
  lemma {:induction false} TargetsIffAimed(t: seq<Event>, uri: string, dir: string)
    ensures Targets(t, uri, dir) <==> forall i :: 0 <= i < |t| ==> Aimed(t[i], uri, dir)
    decreases |t|
  {
    if t != [] {
      TargetsIffAimed(t[1..], uri, dir);
      assert forall i :: 1 <= i < |t| ==> t[i] == t[1..][i - 1];
    }
  }

  /** The facts about a command list shaped like the fetch phase's. */
  lemma FetchShape(cs: seq<Command>, uri: string, dir: string, cloned: bool, onBranch: bool, arg: string)
    requires cs == (if cloned then [] else [Clone(uri, dir)])
      + (if onBranch then [] else [Checkout(dir, arg)]) + [Pull(dir)]
    ensures Clone(uri, dir) in cs <==> !cloned
    ensures multiset(cs)[Clone(uri, dir)] == if cloned then 0 else 1
    ensures !cloned ==> cs[0] == Clone(uri, dir)
    ensures forall a :: Checkout(dir, a) in cs <==> !onBranch && a == arg
  {
  }

  /** Such a list ends with its only pull. */
  lemma FetchShapePull(cs: seq<Command>, uri: string, dir: string, cloned: bool, onBranch: bool, arg: string)
    requires cs == (if cloned then [] else [Clone(uri, dir)])
      + (if onBranch then [] else [Checkout(dir, arg)]) + [Pull(dir)]
    ensures cs[|cs| - 1] == Pull(dir) && multiset(cs)[Pull(dir)] == 1
  {
  }

  /** The fetch phase issues a clone exactly when the tree is not cloned,
      at most once, and then before anything else. */
  lemma FetchClonesIffMissing(g: Repo, d: Decisions)
    ensures var cs := Commands(FetchCode(g, d));
      && (Clone(g.uri, g.workingDirectory) in cs <==> !d.cloned)
      && multiset(cs)[Clone(g.uri, g.workingDirectory)] == (if d.cloned then 0 else 1)
      && (!d.cloned ==> cs[0] == Clone(g.uri, g.workingDirectory))
  {
    FetchShape(FetchCommands(g, d), g.uri, g.workingDirectory, d.cloned, d.onBranch, Argument(d.syncStrategy));
  }

  /** The fetch phase issues a checkout exactly when HEAD is not on the
      configured branch, and then of that branch, never of a treeish. */
  lemma FetchChecksOutIffOffBranch(g: Repo, d: Decisions)
    requires Consistent(g, d)
    ensures forall a :: Checkout(g.workingDirectory, a) in Commands(FetchCode(g, d)) <==>
      !d.onBranch && a == Argument(d.syncStrategy)
    ensures !d.syncStrategy.Treeish?
  {
    FetchShape(FetchCommands(g, d), g.uri, g.workingDirectory, d.cloned, d.onBranch, Argument(d.syncStrategy));
  }

  /** The fetch phase always pulls, once, as its last command. */
  lemma FetchPullsLast(g: Repo, d: Decisions)
    ensures var cs := Commands(FetchCode(g, d));
      cs[|cs| - 1] == Pull(g.workingDirectory) && multiset(cs)[Pull(g.workingDirectory)] == 1
  {
    var cs := Commands(FetchCode(g, d));
    assert cs == FetchCommands(g, d);
    FetchShapePull(cs, g.uri, g.workingDirectory, d.cloned, d.onBranch, Argument(d.syncStrategy));
  }

  /** The fetch phase checks the configured branch out by name or creates
      it from `origin`. */
  lemma SyncArgument(g: Repo, d: Decisions)
    requires Consistent(g, d)
    ensures Argument(d.syncStrategy) == g.branch
         || Argument(d.syncStrategy) == "-b " + g.branch + " origin/" + g.branch
  {
  }

  /** Two fetches of a tree issue one clone between them when the first finds
      the tree missing and the second finds it (the clone left the `.git`
      directory behind); a tree found present is never cloned. */
  lemma FetchTwiceClonesOnce(g: Repo, first: Decisions, second: Decisions)
    requires second.cloned
    ensures multiset(Commands(FetchCode(g, first) + FetchCode(g, second)))[Clone(g.uri, g.workingDirectory)]
         == if first.cloned then 0 else 1
  {
    CommandsAppend(FetchCode(g, first), FetchCode(g, second));
    FetchClonesIffMissing(g, first);
    FetchClonesIffMissing(g, second);
  }

  /** In a trace that ends with the only hand-over, the hand-over happens
      once and after everything else. */
  lemma YieldLast(t: seq<Event>)
    requires HandsOverLast(t)
    ensures multiset(t)[Yield] == 1
    ensures forall i, j :: 0 <= i < |t| && 0 <= j < |t| && t[j] == Yield && !t[i].Yield? ==> i < j
  {
    var pre := t[..|t| - 1];
    assert t == pre + [Yield];
    assert multiset(pre)[Yield] == 0;
    assert forall k :: 0 <= k < |t| - 1 ==> t[k] == pre[k];
  }

  /** The caller's action runs once, after every probe and every command of
      the synchronisation. */
  lemma ActionRunsOnceLast(g: Repo, d: Decisions)
    ensures var t := Sync(g, d);
      && multiset(t)[Yield] == 1
      && forall i, j :: 0 <= i < |t| && 0 <= j < |t| && t[j] == Yield && !t[i].Yield? ==> i < j
  {
    YieldLast(Sync(g, d));
  }

  /** The commands of `with_revision` in terms of what it observes: clone
      unless `.git` is there, check out the configured branch unless HEAD is
      on it, pull, then check out the revision (or, with none, the configured
      branch again, by the same tie-break against the later `git branch`). */
  lemma WithRevisionCommands(g: Repo, revision: Option<string>, obs: Observation)
    ensures Commands(WithRevision(g, revision, obs))
      == (if obs.gitDirExists then [] else [Clone(g.uri, g.workingDirectory)])
       + (if OnBranch(obs.headRef, g.branch) then []
          else [Checkout(g.workingDirectory, Argument(ChooseStrategy(g.branch, None, obs.branchesAtSync)))])
       + [Pull(g.workingDirectory)]
       + [Checkout(g.workingDirectory, Argument(ChooseStrategy(g.branch, revision, obs.branchesAtRevision)))]
  {
  }

  /** A run on an up-to-date clone with an explicit revision logs just the
      pull and the checkout of the revision. */
  lemma UpToDateLogExample()
    ensures Logs(Sync(Repo("u", "master", "/w"),
                      Decisions(true, true, LocalBranch("master"), Treeish("abc123"))))
         == ["Pull-ing in /w", "Checking-out abc123"]
  {
    var g := Repo("u", "master", "/w");
    var d := Decisions(true, true, LocalBranch("master"), Treeish("abc123"));
    var t := Sync(g, d);
    AnnouncedLogs(t);
    var cs := [Pull("/w"), Checkout("/w", "abc123")];
    assert FetchCommands(g, d) == [Pull("/w")];
    assert Commands(t) == cs;
    assert cs[1..] == [Checkout("/w", "abc123")];
    ExampleSpelling();
  }

  lemma ExampleSpelling()
    ensures Announce(Pull("/w")) == "Pull-ing in /w"
    ensures Announce(Checkout("/w", "abc123")) == "Checking-out abc123"
  {
  }
}
