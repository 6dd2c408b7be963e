/**
  The derived accessors of a build record (`Integrity::Build`): the short
  commit identifier, the author split into name and email, the commit
  message, the human-readable status and the status predicates, and the
  defaults of a fresh build.
 */
module BuildRecord {
  import opened Wrappers

  // ---------------------------------------------------------------------------
  // Status
  // ---------------------------------------------------------------------------

  /** The three states of a build. */
  datatype Status = Pending | Successful | Failed

  /** The name a status is assigned and stored under. */
  function StatusName(s: Status): string {
    match s
    case Pending => "pending"
    case Successful => "successful"
    case Failed => "failed"
  }

  /** The status a name stands for; `None` for any other name. */
  function ParseStatus(name: string): (r: Option<Status>)
    ensures r.Some? ==> StatusName(r.value) == name
    ensures r.None? ==> forall s :: StatusName(s) != name
  {
    if name == "pending" then Some(Pending)
    else if name == "successful" then Some(Successful)
    else if name == "failed" then Some(Failed)
    else
      assert forall s :: StatusName(s) in {"pending", "successful", "failed"};
      None
  }

  /** Every status is read back from its own name. */
  lemma ParseStatusName(s: Status)
    ensures ParseStatus(StatusName(s)) == Some(s)
  {
    StatusNamesDistinct();
  }

  lemma StatusNamesDistinct()
    ensures "pending" != "successful" && "pending" != "failed" && "successful" != "failed"
  {
    assert "pending"[0] != "successful"[0];
    assert "pending"[0] != "failed"[0];
    assert "successful"[0] != "failed"[0];
  }

  /** The status as shown to people. */
  function HumanReadableStatus(s: Status): (r: string)
    ensures r == "Build Successful" <==> s == Successful
    ensures r == "Build Failed" <==> s == Failed
    ensures r == "Waiting..." <==> s == Pending
  {
    StatusTextsDistinct();
    match s
    case Successful => "Build Successful"
    case Failed => "Build Failed"
    case Pending => "Waiting..."
  }

  /** Different statuses read differently. */
  lemma HumanReadableStatusInjective(a: Status, b: Status)
    ensures HumanReadableStatus(a) == HumanReadableStatus(b) <==> a == b
  {
    StatusTextsDistinct();
  }

  lemma StatusTextsDistinct()
    ensures "Build Successful" != "Build Failed"
    ensures "Waiting..." != "Build Successful" && "Waiting..." != "Build Failed"
  {
    assert "Build Successful"[6] != "Build Failed"[6];
    assert "Waiting..."[0] != "Build Successful"[0];
    assert "Waiting..."[0] != "Build Failed"[0];
  }

  // ---------------------------------------------------------------------------
  // The record
  // ---------------------------------------------------------------------------

  /** The fields of the commit metadata the accessors read. */
  datatype MetadataKey = AuthorKey | MessageKey

  /** A build: the commit it built, that commit's metadata, the build's
      output and its status. */
  datatype Build = Build(
    commitIdentifier: Option<string>,
    commitMetadata: map<MetadataKey, string>,
    output: string,
    status: Status)

  /** `Build.new`: nothing known about the commit, no output yet, pending. */
  function NewBuild(): (b: Build)
    ensures IsPending(b) && !IsSuccessful(b) && !IsFailed(b)
    ensures b.output == ""
    ensures b.commitIdentifier == None && b.commitMetadata == map[]
  {
    Build(None, map[], "", Pending)
  }

  /** A fresh build reads as waiting, until a status is assigned. */
  lemma FreshBuildWaiting()
    ensures IsPending(NewBuild()) && HumanReadableStatus(NewBuild().status) == "Waiting..."
    ensures forall name :: AssignStatus(NewBuild(), name).Some? ==>
      AssignStatus(NewBuild(), name).value.output == ""
  {
  }

  /** `successful?`: holds exactly when the build reads "Build Successful". */
  predicate IsSuccessful(b: Build): (r: bool)
    ensures r <==> HumanReadableStatus(b.status) == "Build Successful"
  {
    b.status == Successful
  }

  /** `failed?`: holds exactly when the build reads "Build Failed". */
  predicate IsFailed(b: Build): (r: bool)
    ensures r <==> HumanReadableStatus(b.status) == "Build Failed"
  {
    b.status == Failed
  }

  /** `pending?`: holds exactly when the build reads "Waiting...". */
  predicate IsPending(b: Build): (r: bool)
    ensures r <==> HumanReadableStatus(b.status) == "Waiting..."
  {
    b.status == Pending
  }

  /** Exactly one of the status predicates holds of any build. */
  lemma ExactlyOneStatus(b: Build)
    ensures IsSuccessful(b) || IsFailed(b) || IsPending(b)
    ensures !(IsSuccessful(b) && IsFailed(b))
    ensures !(IsSuccessful(b) && IsPending(b))
    ensures !(IsFailed(b) && IsPending(b))
  {
  }

  /** `status = name`: the build with the named status, everything else
      unchanged; `None` when the name is not a status. */
  function AssignStatus(b: Build, name: string): (r: Option<Build>)
    ensures r.Some? <==> ParseStatus(name).Some?
    ensures r.Some? ==> r.value == b.(status := ParseStatus(name).value)
    ensures r.Some? ==> StatusName(r.value.status) == name
  {
    match ParseStatus(name)
    case Some(s) => Some(b.(status := s))
    case None => None
  }

  /** Assigning each status by name makes its predicate, and only its
      predicate, hold, and sets the matching human-readable text. */
  lemma AssignedStatusReads(b: Build)
    ensures var r := AssignStatus(b, "successful");
      r.Some? && IsSuccessful(r.value) && !IsFailed(r.value) && !IsPending(r.value)
      && HumanReadableStatus(r.value.status) == "Build Successful"
    ensures var r := AssignStatus(b, "failed");
      r.Some? && IsFailed(r.value) && !IsSuccessful(r.value) && !IsPending(r.value)
      && HumanReadableStatus(r.value.status) == "Build Failed"
    ensures var r := AssignStatus(b, "pending");
      r.Some? && IsPending(r.value) && !IsSuccessful(r.value) && !IsFailed(r.value)
      && HumanReadableStatus(r.value.status) == "Waiting..."
  {
    ParseStatusName(Successful);
    ParseStatusName(Failed);
    ParseStatusName(Pending);
  }

  // ---------------------------------------------------------------------------
  // Commit identifier
  // ---------------------------------------------------------------------------

  /** How many characters the short form of an identifier keeps. */
  const ShortLength := 7

  /** The first seven characters of an identifier, or all of a shorter one. */
  function ShortIdentifier(id: string): (r: string)
    ensures |r| == if |id| < ShortLength then |id| else ShortLength
    ensures r == id[..|r|]
  {
    if |id| <= ShortLength then id else id[..ShortLength]
  }

  /** Shortening a short identifier changes nothing. */
  lemma ShortIdentifierIdempotent(id: string)
    ensures ShortIdentifier(ShortIdentifier(id)) == ShortIdentifier(id)
  {
  }

  /** Identifiers agreeing on their first seven characters (or equal, when
      shorter) have the same short form, and only those. */
  lemma ShortIdentifierAgrees(a: string, b: string)
    ensures ShortIdentifier(a) == ShortIdentifier(b) <==>
      (if |a| < ShortLength || |b| < ShortLength then a == b
       else a[..ShortLength] == b[..ShortLength])
  {
  }

  /** `short_commit_identifier`: the short form of the build's commit
      identifier; `None` while the build has none. */
  function ShortCommitIdentifier(b: Build): (r: Option<string>)
    ensures r.Some? <==> b.commitIdentifier.Some?
    ensures r.Some? ==> r.value <= b.commitIdentifier.value && |r.value| <= ShortLength
    ensures r.Some? && |r.value| < ShortLength ==> r.value == b.commitIdentifier.value
  {
    match b.commitIdentifier
    case Some(id) => Some(ShortIdentifier(id))
    case None => None
  }

  /** The full 40-character identifier is cut to "0367ee0"; "234" is kept. */
  lemma ShortCommitIdentifierExamples(b: Build)
    ensures ShortCommitIdentifier(b.(commitIdentifier := Some("0367ee0566843edcf871a86f0eb23d90c4ee1d14")))
         == Some("0367ee0")
    ensures ShortCommitIdentifier(b.(commitIdentifier := Some("234"))) == Some("234")
  {
    FullIdentifierSpelling();
    ShortIdentifierOfPrefix("0367ee0", "566843edcf871a86f0eb23d90c4ee1d14");
  }

  lemma FullIdentifierSpelling()
    ensures "0367ee0566843edcf871a86f0eb23d90c4ee1d14" == "0367ee0" + "566843edcf871a86f0eb23d90c4ee1d14"
  {
  }

  /** Seven characters followed by anything shorten to those seven. */
  lemma ShortIdentifierOfPrefix(p: string, rest: string)
    requires |p| == ShortLength
    ensures ShortIdentifier(p + rest) == p
  {
    assert (p + rest)[..ShortLength] == p;
  }

  // ---------------------------------------------------------------------------
  // Commit author and message
  // ---------------------------------------------------------------------------

  /** An author as `Name <email>`, split, with the original text kept. */
  datatype Author = Author(name: string, email: string, full: string)

  /** The two-character marker " <" that opens the email starts at `j`. */
  predicate MarkerAt(s: string, j: int) {
    0 <= j && j + 1 < |s| && s[j] == ' ' && s[j + 1] == '<'
  }

  predicate HasMarker(s: string) {
    exists j :: 0 <= j < |s| && MarkerAt(s, j)
  }

  /** The position of the last " <" in `s`, if any. */
  function LastMarker(s: string): (r: Option<nat>)
    ensures r.Some? ==> MarkerAt(s, r.value) && forall j :: r.value < j ==> !MarkerAt(s, j)
    ensures r.None? ==> forall j :: !MarkerAt(s, j)
    decreases |s|
  {
    if |s| < 2 then None
    else if MarkerAt(s, |s| - 2) then Some(|s| - 2)
    else
      var init := s[..|s| - 1];
      assert forall j :: MarkerAt(s, j) ==> j == |s| - 2 || MarkerAt(init, j);
      var r := LastMarker(init);
      if r.Some? then
        assert MarkerAt(s, r.value);
        r
      else
        r
  }

  /** `commit_author` on an author text: everything before the last " <" is
      the name, everything between it and the final ">" the email; `None`
      when the text does not end with ">" after a " <". */
  function ParseAuthor(full: string): (r: Option<Author>)
    ensures r.Some? ==>
      && r.value.full == full
      && full == r.value.name + " <" + r.value.email + ">"
      && (forall j :: !MarkerAt(r.value.email, j))
    ensures r.None? <==>
      full == [] || full[|full| - 1] != '>' || !HasMarker(full[..|full| - 1])
  {
    if full == [] || full[|full| - 1] != '>' then None
    else
      var body := full[..|full| - 1];
      match LastMarker(body)
      case None => None
      case Some(i) =>
        var name := body[..i];
        var email := body[i + 2..];
        assert body == name + " <" + email;
        assert full == body + ">";
        assert forall j :: MarkerAt(email, j) ==> MarkerAt(body, j + i + 2);
        Some(Author(name, email, full))
  }

  /** Joining a name and an email without " <" in it, then splitting, gives
      back the name and the email. */
  lemma ParseAuthorRoundTrip(name: string, email: string)
    requires forall j :: !MarkerAt(email, j)
    ensures ParseAuthor(name + " <" + email + ">") == Some(Author(name, email, name + " <" + email + ">"))
  {
    var full := name + " <" + email + ">";
    var body := name + " <" + email;
    assert full[..|full| - 1] == body;
    assert MarkerAt(body, |name|);
    forall j | |name| < j
      ensures !MarkerAt(body, j)
    {
      if j == |name| + 1 {
        assert body[j] == '<';
      } else {
        assert MarkerAt(body, j) ==> MarkerAt(email, j - |name| - 2);
      }
    }
    var i := LastMarker(body);
    assert i == Some(|name|);
    assert body[..|name|] == name;
    assert body[|name| + 2..] == email;
  }

  /** A text without "<" holds no marker. */
  lemma NoMarkerWithoutAngle(s: string)
    requires '<' !in s
    ensures forall j :: !MarkerAt(s, j)
  {
    forall j
      ensures !MarkerAt(s, j)
    {
      if 0 <= j && j + 1 < |s| {
        assert s[j + 1] in s;
      }
    }
  }

  /** `commit_author`: the build's author text split; `None` when there is
      none or it is not of the form `Name <email>`. */
  function CommitAuthor(b: Build): (r: Option<Author>)
    ensures r.Some? ==> AuthorKey in b.commitMetadata && r.value.full == b.commitMetadata[AuthorKey]
    ensures AuthorKey !in b.commitMetadata ==> r.None?
    ensures AuthorKey in b.commitMetadata ==> r == ParseAuthor(b.commitMetadata[AuthorKey])
  {
    if AuthorKey in b.commitMetadata then ParseAuthor(b.commitMetadata[AuthorKey]) else None
  }

  /** A build whose author text is `name <email>` has that name and email as
      its author, for every email free of " <". */
  lemma CommitAuthorSplits(b: Build, name: string, email: string)
    requires AuthorKey in b.commitMetadata
    requires b.commitMetadata[AuthorKey] == name + " <" + email + ">"
    requires forall j :: !MarkerAt(email, j)
    ensures CommitAuthor(b) == Some(Author(name, email, b.commitMetadata[AuthorKey]))
  {
    ParseAuthorRoundTrip(name, email);
  }

  /** "Simon Rozet <simon@rozet.name>" is split into its name and email. */
  lemma CommitAuthorExample(b: Build)
    ensures var a := CommitAuthor(b.(commitMetadata := map[AuthorKey := "Simon Rozet <simon@rozet.name>"]));
      a == Some(Author("Simon Rozet", "simon@rozet.name", "Simon Rozet <simon@rozet.name>"))
  {
    NoMarkerWithoutAngle("simon@rozet.name");
    ParseAuthorRoundTrip("Simon Rozet", "simon@rozet.name");
    AuthorSpelling();
  }

  lemma AuthorSpelling()
    ensures "Simon Rozet" + " <" + "simon@rozet.name" + ">" == "Simon Rozet <simon@rozet.name>"
  {
  }

  /** `commit_message`: the message of the commit metadata, if any. */
  function CommitMessage(b: Build): (r: Option<string>)
    ensures r.Some? <==> MessageKey in b.commitMetadata
  {
    if MessageKey in b.commitMetadata then Some(b.commitMetadata[MessageKey]) else None
  }

  /** The message is read back exactly as stored, whatever else the metadata
      holds. */
  lemma CommitMessageUnchanged(b: Build, message: string)
    ensures CommitMessage(b.(commitMetadata := b.commitMetadata[MessageKey := message])) == Some(message)
  {
  }
}
