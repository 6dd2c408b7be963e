/**
  How the Git synchroniser (`Integrity::SCM::Git`) reads what git prints:
  `local_branches` over the output of `git branch`, `on_branch?` over the
  output of `git symbolic-ref HEAD`, and the checkout tie-break that uses
  the former. A model of what git prints (`RenderListing`) is the partner
  the parsers are proved against.
 */
module GitOutput {
  import opened Wrappers
  import opened RubyText

  // ---------------------------------------------------------------------------
  // `git branch`
  // ---------------------------------------------------------------------------

  /** One line of `git branch` output cleaned up: every `*` removed, then
      surrounding white space stripped. */
  function CleanBranchLine(line: string): (r: string)
    ensures '*' !in r && HasNoOuterSpace(r)
    ensures '\0' !in line ==> IsStripped(r)
    ensures |r| <= |line|
  {
    var d := Delete(line, '*');
    assert '\0' !in line ==> multiset(d)['\0'] == 0;
    StripKeepsAbsent(d, '*');
    StripNulFree(d);
    Strip(d)
  }

  /** Every line cleaned, in order. */
  function CleanLines(lines: seq<string>): (r: seq<string>)
    ensures |r| == |lines|
    ensures forall i :: 0 <= i < |r| ==> r[i] == CleanBranchLine(lines[i])
  {
    if lines == [] then [] else [CleanBranchLine(lines[0])] + CleanLines(lines[1..])
  }

  /** `local_branches`: one cleaned entry per line of `git branch` output:
      the line with every `*` deleted, then stripped. */
  function LocalBranches(listing: string): (r: seq<string>)
    ensures |r| == |SplitLines(listing)|
    ensures forall i :: 0 <= i < |r| ==> r[i] == CleanBranchLine(SplitLines(listing)[i])
    ensures forall i :: 0 <= i < |r| ==> '*' !in r[i] && HasNoOuterSpace(r[i])
    ensures '\0' !in listing ==> forall i :: 0 <= i < |r| ==> IsStripped(r[i])
  {
    SplitLinesKeepAbsent(listing, '\0');
    CleanLines(SplitLines(listing))
  }

  /** One entry of `git branch` output: a name, marked when it is checked out. */
  datatype BranchEntry = BranchEntry(name: string, current: bool)

  /** A name git prints as is: non-empty, single-line, no `*`, no surrounding
      white space. */
  predicate PlainBranchName(n: string) {
    n != [] && '*' !in n && '\n' !in n && IsStripped(n)
  }

  /** The line git prints for an entry: "* " before the current branch, two
      spaces before the others. */
  function ListingLine(e: BranchEntry): string {
    (if e.current then "* " else "  ") + e.name
  }

  /** What `git branch` prints: one newline-terminated line per entry. */
  function RenderListing(es: seq<BranchEntry>): string {
    if es == [] then [] else ListingLine(es[0]) + "\n" + RenderListing(es[1..])
  }

  function Names(es: seq<BranchEntry>): seq<string> {
    if es == [] then [] else [es[0].name] + Names(es[1..])
  }

  function ListingLines(es: seq<BranchEntry>): seq<string> {
    if es == [] then [] else [ListingLine(es[0])] + ListingLines(es[1..])
  }

  /** Cleaning a printed line gives back the branch name. */
  lemma CleanListingLine(e: BranchEntry)
    requires PlainBranchName(e.name)
    ensures CleanBranchLine(ListingLine(e)) == e.name
  {
    DeleteMarkers();
    if e.current {
      CleanMarked("* ", " ", e.name);
    } else {
      CleanMarked("  ", "  ", e.name);
    }
  }

  /** A marker whose `*`s leave only padding, before a plain name, cleans
      away to the name. */
  lemma CleanMarked(marker: string, pad: string, name: string)
    requires Delete(marker, '*') == pad && forall i :: 0 <= i < |pad| ==> IsSpace(pad[i])
    requires PlainBranchName(name)
    ensures CleanBranchLine(marker + name) == name
  {
    DeleteMarked(marker, pad, name);
    StripAfterSpaces(pad, name);
  }

  /** The markers lose their `*` and keep their padding. */
  lemma DeleteMarkers()
    ensures Delete("* ", '*') == " " && Delete("  ", '*') == "  "
  {
    assert "* "[1..] == " ";
    DeleteAbsent(" ", '*');
    DeleteAbsent("  ", '*');
  }

  /** Deleting `*` from a marker and a name without `*` leaves the marker's
      padding before the name. */
  lemma DeleteMarked(marker: string, pad: string, name: string)
    requires Delete(marker, '*') == pad && '*' !in name
    ensures Delete(marker + name, '*') == pad + name
  {
    DeleteAppend(marker, name, '*');
    DeleteAbsent(name, '*');
  }

  lemma {:induction false} CleanListingLines(es: seq<BranchEntry>)
    requires forall i :: 0 <= i < |es| ==> PlainBranchName(es[i].name)
    ensures CleanLines(ListingLines(es)) == Names(es)
    decreases |es|
  {
    if es != [] {
      CleanListingLine(es[0]);
      CleanListingLines(es[1..]);
      assert ListingLines(es)[1..] == ListingLines(es[1..]);
    }
  }

  /** Each printed line is non-empty and single-line. */
  lemma {:induction false} ListingLinesShape(es: seq<BranchEntry>)
    requires forall i :: 0 <= i < |es| ==> '\n' !in es[i].name
    ensures forall i :: 0 <= i < |ListingLines(es)| ==>
      ListingLines(es)[i] != [] && '\n' !in ListingLines(es)[i]
    ensures |ListingLines(es)| == |es|
    decreases |es|
  {
    if es != [] {
      ListingLinesShape(es[1..]);
      var ls := ListingLines(es);
      assert ls == [ListingLine(es[0])] + ListingLines(es[1..]);
      assert '\n' !in ListingLine(es[0]);
    }
  }

  lemma {:induction false} RenderListingJoins(es: seq<BranchEntry>)
    ensures RenderListing(es) == Join(ListingLines(es) + [""], '\n')
    decreases |es|
  {
    if es != [] {
      RenderListingJoins(es[1..]);
      var ls := ListingLines(es);
      assert (ls + [""])[1..] == ListingLines(es[1..]) + [""];
    }
  }

  /** `local_branches` recovers exactly the names `git branch` printed, in
      order, whichever of them is marked current. */
  lemma LocalBranchesOfListing(es: seq<BranchEntry>)
    requires forall i :: 0 <= i < |es| ==> PlainBranchName(es[i].name)
    ensures LocalBranches(RenderListing(es)) == Names(es)
  {
    RenderListingJoins(es);
    ListingLinesShape(es);
    SplitTerminatedLines(ListingLines(es));
    CleanListingLines(es);
  }

  // ---------------------------------------------------------------------------
  // `git symbolic-ref HEAD`
  // ---------------------------------------------------------------------------

  /** `on_branch?`: the last component of the symbolic ref, line ending
      chomped, is the configured branch. */
  predicate OnBranch(headRef: string, branch: string): (r: bool)
    ensures r ==> branch == "/" || '/' !in branch
    ensures r && branch != [] ==> headRef != []
  {
    var b := Basename(headRef);
    ChompKeepsAbsent(b, '/');
    Chomp(b) == branch
  }

  /** `chomp` removes the newline `git symbolic-ref` ends its answer with. */
  lemma ChompNewline(b: string)
    requires b == [] || b[|b| - 1] != '\r'
    ensures Chomp(b + "\n") == b
  {
    var line := b + "\n";
    var r := Chomp(line);
    assert line[|line| - 1] == '\n';
    assert line[..|b|] == b;
    assert |line| - |r| == 1 by {
      if |b| > 0 {
        assert line[|line| - 2] == b[|b| - 1];
      }
    }
  }

  /** HEAD on `refs/.../b` (as `git symbolic-ref` prints it, with a newline)
      is on branch `branch` exactly when `branch` is `b`. */
  lemma OnBranchOfRef(prefix: string, b: string, branch: string)
    requires b != [] && '/' !in b && b[|b| - 1] != '\r'
    ensures OnBranch(prefix + "/" + b + "\n", branch) <==> branch == b
  {
    var line := b + "\n";
    assert prefix + "/" + b + "\n" == prefix + "/" + line;
    BasenameOfSegment(prefix, line);
    ChompNewline(b);
  }

  /** The `refs/heads/master` example. */
  lemma OnMasterExample()
    ensures OnBranch("refs/heads/master\n", "master")
  {
    MasterRefSpelling();
    OnBranchOfRef("refs/heads", "master", "master");
  }

  lemma MasterRefSpelling()
    ensures "refs/heads/master\n" == "refs/heads" + "/" + "master" + "\n"
  {
  }

  /** Only the last segment of the ref is compared: HEAD on `feature/x`
      counts as on branch "x" and not as on branch "feature/x". */
  lemma OnBranchComparesLastSegment()
    ensures OnBranch("refs/heads/feature/x\n", "x")
    ensures !OnBranch("refs/heads/feature/x\n", "feature/x")
  {
    FeatureRefSpelling();
    OnBranchOfRef("refs/heads/feature", "x", "x");
    OnBranchOfRef("refs/heads/feature", "x", "feature/x");
  }

  lemma FeatureRefSpelling()
    ensures "refs/heads/feature/x\n" == "refs/heads/feature" + "/" + "x" + "\n"
  {
  }

  /** A detached HEAD (`git symbolic-ref` prints nothing on its standard
      output) is on no named branch. */
  lemma DetachedHeadOnNoBranch(branch: string)
    requires branch != []
    ensures !OnBranch("", branch)
  {
    assert Basename("") == [];
  }

  // ---------------------------------------------------------------------------
  // Checkout strategy
  // ---------------------------------------------------------------------------

  /** The three ways `checkout` can name what it checks out. */
  datatype Strategy =
    | Treeish(name: string)
    | LocalBranch(name: string)
    | TrackRemote(name: string)

  /** The text passed to `git checkout` for a strategy. */
  function Argument(s: Strategy): (r: string)
    ensures r == s.name <==> !s.TrackRemote?
    ensures s.TrackRemote? ==> "-b " + s.name + " " <= r && |s.name| <= |r| && r[|r| - |s.name|..] == s.name
  {
    match s
    case Treeish(t) => t
    case LocalBranch(b) => b
    case TrackRemote(b) => "-b " + b + " origin/" + b
  }

  /** The tie-break of `checkout(treeish)`: an explicit treeish (any
      string, the empty one included, since only `nil` and `false` are
      false in Ruby) wins; else the configured branch by name if
      `git branch` lists it; else a new local branch tracking the remote
      one of the same name. */
  function ChooseStrategy(branch: string, treeish: Option<string>, listing: string): (s: Strategy)
    ensures treeish.Some? ==> s == Treeish(treeish.value)
    ensures treeish.None? ==> !s.Treeish? && s.name == branch
    ensures s.LocalBranch? <==> treeish.None? && branch in LocalBranches(listing)
  {
    if treeish.Some? then Treeish(treeish.value)
    else if branch in LocalBranches(listing) then LocalBranch(branch)
    else TrackRemote(branch)
  }

  /** An explicit treeish wins whatever `git branch` reports. */
  lemma ExplicitTreeishWins(branch: string, treeish: string, listing: string, other: string)
    ensures ChooseStrategy(branch, Some(treeish), listing) == ChooseStrategy(branch, Some(treeish), other)
    ensures Argument(ChooseStrategy(branch, Some(treeish), listing)) == treeish
  {
  }

  /** Against a listing git printed, the tie-break checks out the configured
      branch by name exactly when git listed it, and otherwise creates it
      tracking `origin`. */
  lemma StrategyFromListing(branch: string, es: seq<BranchEntry>)
    requires forall i :: 0 <= i < |es| ==> PlainBranchName(es[i].name)
    ensures ChooseStrategy(branch, None, RenderListing(es))
         == if branch in Names(es) then LocalBranch(branch) else TrackRemote(branch)
  {
    LocalBranchesOfListing(es);
  }

  /** "main" absent locally is created tracking `origin/main`. */
  lemma TieBreakAbsentExample()
    ensures Argument(ChooseStrategy("main", None, RenderListing([BranchEntry("dev", true)])))
         == "-b main origin/main"
  {
    var es := [BranchEntry("dev", true)];
    ExampleNames();
    StrategyFromListing("main", es);
    assert Names(es) == ["dev"];
    TrackMainSpelling();
  }

  /** "main" present locally (here the current branch) is checked out by name. */
  lemma TieBreakPresentExample()
    ensures Argument(ChooseStrategy("main", None,
              RenderListing([BranchEntry("dev", false), BranchEntry("main", true)]))) == "main"
  {
    var es := [BranchEntry("dev", false), BranchEntry("main", true)];
    ExampleNames();
    assert "main" in Names(es) by {
      assert Names(es) == ["dev", "main"];
    }
    StrategyFromListing("main", es);
  }

  /** An explicit revision is checked out as given, whatever the listing. */
  lemma TieBreakRevisionExample(listing: string)
    ensures Argument(ChooseStrategy("main", Some("abc123"), listing)) == "abc123"
  {
  }

  lemma ExampleNames()
    ensures PlainBranchName("dev") && PlainBranchName("main") && "main" != "dev"
  {
    assert "main"[0] != "dev"[0];
  }

  lemma TrackMainSpelling()
    ensures Argument(TrackRemote("main")) == "-b main origin/main"
  {
  }
}
