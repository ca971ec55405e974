/** The upload of a bundle to a Play track: a transaction against a server that may answer
    anything, or not at all. */
module PlayUpload {
  import opened Text

  datatype Mode = Check | Draft | Complete

  /** A release as the API lists it. */
  datatype Release = Release(name: string, versionCodes: seq<string>, status: string)

  /** `digest` is the SHA-256 of the bundle sent. */
  datatype Args = Args(mode: Mode, symbols: bool, expected: Option<int>, name: Option<string>, digest: string)

  datatype Request = OpenEdit | UploadBundle | UploadSymbols(code: int) | ReadTrack
                   | PutTrack(releases: seq<Release>) | Validate | Commit | DeleteEdit

  /** A reply with the parts of its body that are looked at, or no reply. A missing digest
      is empty; a digest comes in lower case without separators. */
  datatype Answer = NoReply
                  | Reply(status: int, editId: string, versionCode: Option<int>, digest: string, releases: seq<Release>)
  {
    predicate Ok() { Reply? && status == 200 }
  }

  datatype Exchange = Exchange(request: Request, answer: Answer)

  /** Everything the server has been asked and has answered so far, and what it answers next. */
  type Server = (seq<Exchange>, Request) -> Answer

  // ----- Refusals -----

  predicate InFlight(status: string) {
    status == "draft" || status == "inProgress" || status == "halted"
  }

  /** A release of exactly the uploaded version code. */
  predicate IsMine(r: Release, code: Option<int>) {
    code.Some? && r.versionCodes == [FormatInt(code.value)]
  }

  predicate Blocks(r: Release, mode: Mode, code: Option<int>) {
    !IsMine(r, code) && if mode.Complete? then InFlight(r.status) else r.status == "draft"
  }

  predicate RefuseInFlight(existing: seq<Release>, mode: Mode, code: Option<int>) {
    exists i :: 0 <= i < |existing| && Blocks(existing[i], mode, code)
  }

  function ReleaseFor(args: Args, code: int): Release {
    Release(if args.name.Some? && args.name.value != "" then args.name.value else FormatInt(code), [FormatInt(code)],
            if args.mode.Complete? then "completed" else "draft")
  }

  function WithoutDrafts(existing: seq<Release>): seq<Release> {
    if existing == [] then []
    else (if existing[0].status == "draft" then [] else [existing[0]]) + WithoutDrafts(existing[1..])
  }

  /** What the track is set to. */
  function NewReleases(args: Args, code: int, existing: seq<Release>): seq<Release> {
    (if args.mode.Complete? then [] else WithoutDrafts(existing)) + [ReleaseFor(args, code)]
  }

  // ----- The transaction as a state machine -----

  /** Where the run is; `Closing` is the clean-up that drops the edit. */
  datatype Phase = Opening | Uploading | SendingSymbols(code: int) | Reading(code: int)
                 | Writing(code: int, existing: seq<Release>) | Validating(code: int) | Committing(code: int)
                 | Closing(outcome: Result<int>) | Over(outcome: Result<int>)

  function Asks(args: Args, phase: Phase): Option<Request> {
    match phase
    case Opening => Some(OpenEdit)
    case Uploading => Some(UploadBundle)
    case SendingSymbols(code) => Some(UploadSymbols(code))
    case Reading(_) => Some(ReadTrack)
    case Writing(code, existing) => Some(PutTrack(NewReleases(args, code, existing)))
    case Validating(_) => Some(Validate)
    case Committing(_) => Some(Commit)
    case Closing(_) => Some(DeleteEdit)
    case Over(_) => None
  }

  predicate EditOpened(a: Answer) { a.Ok() && a.editId != "" }

  predicate BundleAccepted(args: Args, a: Answer) {
    && a.Ok() && a.versionCode.Some?
    && (a.digest == "" || a.digest == args.digest)
    && (args.expected.None? || a.versionCode == args.expected)
  }

  predicate TrackRead(a: Answer) { a.Reply? && (a.status == 404 || a.status == 200) }

  function Listed(a: Answer): seq<Release>
    requires TrackRead(a)
  {
    if a.status == 404 then [] else a.releases
  }

  function Advance(args: Args, phase: Phase, a: Answer): Phase {
    match phase
    case Opening => if EditOpened(a) then Uploading else Over(Err("open an edit"))
    case Uploading =>
      if !BundleAccepted(args, a) then Closing(Err("accept the bundle"))
      else if args.symbols then SendingSymbols(a.versionCode.value)
      else Reading(a.versionCode.value)
    case SendingSymbols(code) => if a.Ok() then Reading(code) else Closing(Err("accept the native debug symbols"))
    case Reading(code) =>
      if !TrackRead(a) then Closing(Err("read the track"))
      else if RefuseInFlight(Listed(a), args.mode, Some(code)) then Closing(Err("work in progress on the track"))
      else Writing(code, Listed(a))
    case Writing(code, _) => if a.Ok() then Validating(code) else Closing(Err("put the release on the track"))
    case Validating(code) =>
      if !a.Ok() then Closing(Err("validate the edit"))
      else if args.mode.Check? then Closing(Ok(code))
      else Committing(code)
    case Committing(code) => if a.Ok() then Over(Ok(code)) else Closing(Err("commit the edit"))
    case Closing(outcome) => Over(outcome)
    case Over(_) => phase
  }

  function PhaseOf(args: Args, trace: seq<Exchange>): Phase {
    if trace == [] then Opening
    else Advance(args, PhaseOf(args, trace[..|trace| - 1]), trace[|trace| - 1].answer)
  }

  /** Every exchange is what the machine asks next and what the server answers to it. */
  ghost predicate IsRun(args: Args, server: Server, trace: seq<Exchange>) {
    forall i :: 0 <= i < |trace| ==>
      && Asks(args, PhaseOf(args, trace[..i])) == Some(trace[i].request)
      && trace[i].answer == server(trace[..i], trace[i].request)
  }

  // ----- The program -----

  /** One bounded request. */
  method Ask(args: Args, server: Server, trace: seq<Exchange>, request: Request) returns (a: Answer, longer: seq<Exchange>)
    requires IsRun(args, server, trace) && Asks(args, PhaseOf(args, trace)) == Some(request)
    ensures IsRun(args, server, longer) && PhaseOf(args, longer) == Advance(args, PhaseOf(args, trace), a)
  {
    hide Advance, Asks;
    a := server(trace, request);
    longer := trace + [Exchange(request, a)];
    assert longer[..|trace|] == trace;
    forall i | 0 <= i < |longer|
      ensures Asks(args, PhaseOf(args, longer[..i])) == Some(longer[i].request)
      ensures longer[i].answer == server(longer[..i], longer[i].request)
    {
      assert i < |trace| ==> longer[..i] == trace[..i] && longer[i] == trace[i];
    }
  }

  /** The guarded part of the run, between opening the edit and dropping it. */
  method RunEdit(args: Args, server: Server, trace0: seq<Exchange>)
    returns (outcome: Result<int>, committed: bool, trace: seq<Exchange>)
    requires IsRun(args, server, trace0) && PhaseOf(args, trace0) == Uploading
    ensures IsRun(args, server, trace)
    ensures PhaseOf(args, trace) == if committed then Over(outcome) else Closing(outcome)
  {
    hide IsRun, PhaseOf, RefuseInFlight, NewReleases;
    committed := false;
    var uploaded;
    uploaded, trace := Ask(args, server, trace0, UploadBundle);
    if !uploaded.Ok() || uploaded.versionCode.None? {
      return Err("accept the bundle"), false, trace;
    }
    var code := uploaded.versionCode.value;
    if uploaded.digest != "" && uploaded.digest != args.digest {
      return Err("accept the bundle"), false, trace;
    }
    if args.expected.Some? && code != args.expected.value {
      return Err("accept the bundle"), false, trace;
    }
    var answer;
    if args.symbols {
      answer, trace := Ask(args, server, trace, UploadSymbols(code));
      if !answer.Ok() {
        return Err("accept the native debug symbols"), false, trace;
      }
    }
    answer, trace := Ask(args, server, trace, ReadTrack);
    if !TrackRead(answer) {
      return Err("read the track"), false, trace;
    }
    var existing := Listed(answer);
    if RefuseInFlight(existing, args.mode, Some(code)) {
      return Err("work in progress on the track"), false, trace;
    }
    answer, trace := Ask(args, server, trace, PutTrack(NewReleases(args, code, existing)));
    if !answer.Ok() {
      return Err("put the release on the track"), false, trace;
    }
    answer, trace := Ask(args, server, trace, Validate);
    if !answer.Ok() {
      return Err("validate the edit"), false, trace;
    }
    if !args.mode.Check? {
      answer, trace := Ask(args, server, trace, Commit);
      if !answer.Ok() {
        return Err("commit the edit"), false, trace;
      }
      committed := true;
    }
    outcome := Ok(code);
  }

  method Upload(args: Args, server: Server) returns (outcome: Result<int>, trace: seq<Exchange>)
    ensures IsRun(args, server, trace) && PhaseOf(args, trace) == Over(outcome)
  {
    hide RefuseInFlight, NewReleases;
    var edit;
    edit, trace := Ask(args, server, [], OpenEdit);
    if !edit.Ok() || edit.editId == "" {
      return Err("open an edit"), trace;
    }
    var committed;
    outcome, committed, trace := RunEdit(args, server, trace);
    if !committed {
      var ignored;
      ignored, trace := Ask(args, server, trace, DeleteEdit);
    }
  }

  // ----- Safety of every run -----

  function SymbolSteps(args: Args): nat { if args.symbols then 1 else 0 }

  /** The first exchanges of a run, all of them passed: the edit, the bundle with the
      digest and the version code expected, and the symbols, if there are any. */
  predicate Delivered(args: Args, h: seq<Exchange>, code: int) {
    && |h| >= 2 + SymbolSteps(args)
    && h[0].request == OpenEdit && EditOpened(h[0].answer)
    && h[1].request == UploadBundle && BundleAccepted(args, h[1].answer) && h[1].answer.versionCode == Some(code)
    && (args.symbols ==> h[2].request == UploadSymbols(code) && h[2].answer.Ok())
  }

  /** Then the track: read, free of others' work, written and validated. */
  predicate Staged(args: Args, h: seq<Exchange>, code: int) {
    var k := 2 + SymbolSteps(args);
    && Delivered(args, h, code) && |h| >= k + 3
    && h[k].request == ReadTrack && TrackRead(h[k].answer)
    && !RefuseInFlight(Listed(h[k].answer), args.mode, Some(code))
    && h[k + 1].request == PutTrack(NewReleases(args, code, Listed(h[k].answer))) && h[k + 1].answer.Ok()
    && h[k + 2].request == Validate && h[k + 2].answer.Ok()
  }

  /** What the exchanges so far must have been for the run to be in its phase. */
  predicate Reached(args: Args, h: seq<Exchange>, phase: Phase) {
    var k := 2 + SymbolSteps(args);
    match phase
    case Opening => h == []
    case Uploading => |h| == 1 && h[0].request == OpenEdit && EditOpened(h[0].answer)
    case SendingSymbols(code) =>
      && args.symbols && |h| == 2 && h[0].request == OpenEdit && EditOpened(h[0].answer)
      && h[1].request == UploadBundle && BundleAccepted(args, h[1].answer) && h[1].answer.versionCode == Some(code)
    case Reading(code) => Delivered(args, h, code) && |h| == k
    case Writing(code, existing) =>
      && Delivered(args, h, code) && |h| == k + 1
      && h[k].request == ReadTrack && TrackRead(h[k].answer) && existing == Listed(h[k].answer)
      && !RefuseInFlight(existing, args.mode, Some(code))
    case Validating(code) =>
      && Delivered(args, h, code) && |h| == k + 2
      && h[k].request == ReadTrack && TrackRead(h[k].answer)
      && !RefuseInFlight(Listed(h[k].answer), args.mode, Some(code))
      && h[k + 1].request == PutTrack(NewReleases(args, code, Listed(h[k].answer))) && h[k + 1].answer.Ok()
    case Committing(code) => Staged(args, h, code) && |h| == k + 3 && !args.mode.Check?
    case Closing(outcome) =>
      && |h| >= 2 && h[0].request == OpenEdit && EditOpened(h[0].answer)
      && (outcome.Ok? ==> args.mode.Check? && Staged(args, h, outcome.value) && |h| == k + 3)
    case Over(outcome) =>
      && h != [] && h[0].request == OpenEdit
      && (outcome.Ok? ==> Staged(args, h, outcome.value) && |h| == k + 4)
  }

  predicate Deletes(h: seq<Exchange>) {
    exists i :: 0 <= i < |h| && h[i].request == DeleteEdit
  }

  predicate CommittedBy(h: seq<Exchange>) {
    exists i :: 0 <= i < |h| && h[i].request == Commit && h[i].answer.Ok()
  }

  /** No edit is dropped before the clean-up, and only the end of a run can have committed. */
  predicate Tidy(h: seq<Exchange>, phase: Phase) {
    && (!phase.Over? ==> !Deletes(h) && !CommittedBy(h))
    && (phase.Over? ==>
          && h != []
          && !Deletes(h[..|h| - 1]) && !CommittedBy(h[..|h| - 1])
          && (Deletes(h) <==> EditOpened(h[0].answer) && !CommittedBy(h)))
  }

  lemma ReachedStep(args: Args, h: seq<Exchange>, e: Exchange)
    requires Reached(args, h, PhaseOf(args, h)) && Asks(args, PhaseOf(args, h)) == Some(e.request)
    ensures Reached(args, h + [e], Advance(args, PhaseOf(args, h), e.answer))
  {
    hide PhaseOf, RefuseInFlight, NewReleases, EditOpened;
    var phase := PhaseOf(args, h);
    assert forall i :: 0 <= i < |h| ==> (h + [e])[i] == h[i];
  }

  lemma {:induction false} RunReaches(args: Args, server: Server, trace: seq<Exchange>, i: nat)
    requires IsRun(args, server, trace) && i <= |trace|
    ensures Reached(args, trace[..i], PhaseOf(args, trace[..i]))
  {
    hide Reached, Asks, Advance;
    if i == 0 {
      NothingReached(args, trace);
    } else {
      RunReaches(args, server, trace, i - 1);
      ReachedStep(args, trace[..i - 1], trace[i - 1]);
      assert trace[..i] == trace[..i - 1] + [trace[i - 1]];
      assert trace[..i][..i - 1] == trace[..i - 1];
    }
  }

  lemma NothingReached(args: Args, trace: seq<Exchange>)
    ensures Reached(args, trace[..0], PhaseOf(args, trace[..0]))
  {
  }

  /** Commit is sent only after the bundle, its digest and version, the symbols, the track and
      the validation have all passed, in that order, with nothing else in between, and never
      to check. */
  lemma CommitIsGuarded(args: Args, server: Server, trace: seq<Exchange>, i: nat)
    requires IsRun(args, server, trace) && i < |trace| && trace[i].request == Commit
    ensures !args.mode.Check? && exists code :: Staged(args, trace[..i], code) && i == 5 + SymbolSteps(args)
  {
    hide Staged, PhaseOf, Delivered;
    RunReaches(args, server, trace, i);
    var phase := PhaseOf(args, trace[..i]);
    assert Staged(args, trace[..i], phase.code);
  }

  lemma {:induction false} RunIsTidy(args: Args, server: Server, trace: seq<Exchange>, i: nat)
    requires IsRun(args, server, trace) && i <= |trace|
    ensures Tidy(trace[..i], PhaseOf(args, trace[..i]))
  {
    hide Tidy, Asks, Advance, Reached;
    if i == 0 {
      NothingUntidy(args, trace);
    } else {
      RunIsTidy(args, server, trace, i - 1);
      RunReaches(args, server, trace, i - 1);
      TidyStep(args, trace[..i - 1], trace[i - 1]);
      assert trace[..i] == trace[..i - 1] + [trace[i - 1]];
      assert trace[..i][..i - 1] == trace[..i - 1];
    }
  }

  lemma NothingUntidy(args: Args, trace: seq<Exchange>)
    ensures Tidy(trace[..0], PhaseOf(args, trace[..0]))
  {
  }

  lemma TidyStep(args: Args, h: seq<Exchange>, e: Exchange)
    requires Tidy(h, PhaseOf(args, h)) && Reached(args, h, PhaseOf(args, h)) && Asks(args, PhaseOf(args, h)) == Some(e.request)
    ensures Tidy(h + [e], Advance(args, PhaseOf(args, h), e.answer))
  {
    hide PhaseOf, RefuseInFlight, NewReleases, BundleAccepted, Delivered, Staged, EditOpened;
    var h', phase := h + [e], PhaseOf(args, h);
    assert h'[..|h'| - 1] == h;
    assert h'[|h|] == e;
    assert Deletes(h') <==> Deletes(h) || e.request.DeleteEdit? by { DeletesSnoc(h, e); }
    assert CommittedBy(h') <==> CommittedBy(h) || (e.request.Commit? && e.answer.Ok()) by { CommittedSnoc(h, e); }
  }

  lemma DeletesSnoc(h: seq<Exchange>, e: Exchange)
    ensures Deletes(h + [e]) <==> Deletes(h) || e.request.DeleteEdit?
  {
    assert forall i :: 0 <= i < |h| ==> (h + [e])[i] == h[i];
    assert (h + [e])[|h|] == e;
  }

  lemma CommittedSnoc(h: seq<Exchange>, e: Exchange)
    ensures CommittedBy(h + [e]) <==> CommittedBy(h) || (e.request.Commit? && e.answer.Ok())
  {
    assert forall i :: 0 <= i < |h| ==> (h + [e])[i] == h[i];
    assert (h + [e])[|h|] == e;
  }

  /** A finished run asks to drop its edit exactly once, at its very end, if it opened one and
      commit was not answered with success; otherwise never. */
  lemma EditIsDroppedOnce(args: Args, server: Server, trace: seq<Exchange>)
    requires IsRun(args, server, trace) && PhaseOf(args, trace).Over?
    ensures trace != []
    ensures !Deletes(trace[..|trace| - 1])
    ensures Deletes(trace) <==> EditOpened(trace[0].answer) && !CommittedBy(trace)
  {
    hide EditOpened, Deletes, CommittedBy, PhaseOf, IsRun;
    RunIsTidy(args, server, trace, |trace|);
    assert trace[..|trace|] == trace;
  }

  /** The outcome tells: success is a passed check, or an answered commit; a failure means
      nothing was committed. */
  lemma OutcomeIsTrue(args: Args, server: Server, trace: seq<Exchange>)
    requires IsRun(args, server, trace) && PhaseOf(args, trace).Over?
    ensures var outcome := PhaseOf(args, trace).outcome;
            && (outcome.Ok? ==> Staged(args, trace, outcome.value))
            && (CommittedBy(trace) <==> outcome.Ok? && !args.mode.Check?)
  {
    hide Staged, Asks, Advance, Reached, Tidy, CommittedBy, PhaseOf, IsRun;
    var n := |trace| - 1;
    RunReaches(args, server, trace, |trace|);
    assert trace[..|trace|] == trace;
    EndOfRun(args, trace);
    LastStep(args, server, trace);
    RunReaches(args, server, trace, n);
    RunIsTidy(args, server, trace, n);
    assert trace == trace[..n] + [trace[n]];
    CommittedSnoc(trace[..n], trace[n]);
    HowItEnds(args, trace[..n], trace[n]);
  }

  lemma LastStep(args: Args, server: Server, trace: seq<Exchange>)
    requires IsRun(args, server, trace) && trace != []
    ensures var h, e := trace[..|trace| - 1], trace[|trace| - 1];
            && Asks(args, PhaseOf(args, h)) == Some(e.request)
            && PhaseOf(args, trace) == Advance(args, PhaseOf(args, h), e.answer)
  {
    hide Asks, Advance;
  }

  lemma EndOfRun(args: Args, trace: seq<Exchange>)
    requires PhaseOf(args, trace).Over? && Reached(args, trace, PhaseOf(args, trace))
    ensures trace != []
    ensures PhaseOf(args, trace).outcome.Ok? ==> Staged(args, trace, PhaseOf(args, trace).outcome.value)
  {
  }

  lemma HowItEnds(args: Args, h: seq<Exchange>, e: Exchange)
    requires Asks(args, PhaseOf(args, h)) == Some(e.request) && Reached(args, h, PhaseOf(args, h)) && Tidy(h, PhaseOf(args, h))
    requires Advance(args, PhaseOf(args, h), e.answer).Over?
    ensures !CommittedBy(h)
    ensures var outcome := Advance(args, PhaseOf(args, h), e.answer).outcome;
            (e.request.Commit? && e.answer.Ok()) <==> (outcome.Ok? && !args.mode.Check?)
  {
    hide PhaseOf, Delivered, Staged, CommittedBy, Deletes;
  }

  // ----- Why a run fails -----

  /** Someone else's unfinished work: a draft, or, where the track is replaced, any release that
      is not out completely, of other version codes than the one uploaded. */
  predicate OthersWork(r: Release, mode: Mode, code: int) {
    r.status in (if mode.Complete? then {"draft", "inProgress", "halted"} else {"draft"}) && r.versionCodes != [FormatInt(code)]
  }

  predicate Answers200(a: Answer) { a.Reply? && a.status == 200 }

  /** The answer to exchange `i` does not let the upload go on. */
  predicate Fails(args: Args, trace: seq<Exchange>, i: nat)
    requires i < |trace|
  {
    var a := trace[i].answer;
    match trace[i].request
    case OpenEdit => !Answers200(a) || a.editId == ""
    case UploadBundle =>
      || !Answers200(a) || a.versionCode.None?
      || (a.digest != "" && a.digest != args.digest)
      || (args.expected.Some? && a.versionCode != args.expected)
    case ReadTrack =>
      || !(a.Reply? && a.status in {200, 404})
      || (a.status == 200 && |trace| > 1 && trace[1].answer.Reply? && trace[1].answer.versionCode.Some?
          && exists r :: r in a.releases && OthersWork(r, args.mode, trace[1].answer.versionCode.value))
    case DeleteEdit => false
    case _ => !Answers200(a)
  }

  predicate FailsBefore(args: Args, trace: seq<Exchange>, n: nat)
    requires n <= |trace|
  {
    exists i :: 0 <= i < n && Fails(args, trace, i)
  }

  predicate HasFailed(phase: Phase) {
    (phase.Closing? || phase.Over?) && phase.outcome.Err?
  }

  lemma RefusedForOthersWork(existing: seq<Release>, mode: Mode, code: int)
    ensures RefuseInFlight(existing, mode, Some(code)) <==> exists r :: r in existing && OthersWork(r, mode, code)
  {
    hide FormatInt;
    if RefuseInFlight(existing, mode, Some(code)) {
      var i :| 0 <= i < |existing| && Blocks(existing[i], mode, Some(code));
      assert existing[i] in existing && OthersWork(existing[i], mode, code);
    }
    if exists r :: r in existing && OthersWork(r, mode, code) {
      var r :| r in existing && OthersWork(r, mode, code);
      var i :| 0 <= i < |existing| && existing[i] == r;
      assert Blocks(existing[i], mode, Some(code));
    }
  }

  lemma FailStep(args: Args, trace: seq<Exchange>, i: nat)
    requires i < |trace| && Asks(args, PhaseOf(args, trace[..i])) == Some(trace[i].request)
    requires Reached(args, trace[..i], PhaseOf(args, trace[..i]))
    ensures HasFailed(Advance(args, PhaseOf(args, trace[..i]), trace[i].answer))
        <==> HasFailed(PhaseOf(args, trace[..i])) || Fails(args, trace, i)
  {
    hide PhaseOf, NewReleases, OthersWork, RefuseInFlight, Staged;
    var phase := PhaseOf(args, trace[..i]);
    if phase.Reading? {
      assert trace[..i][1] == trace[1];
      if TrackRead(trace[i].answer) {
        RefusedForOthersWork(Listed(trace[i].answer), args.mode, phase.code);
      }
    }
  }

  lemma {:induction false} FailsAlongTheWay(args: Args, server: Server, trace: seq<Exchange>, n: nat)
    requires IsRun(args, server, trace) && n <= |trace|
    ensures HasFailed(PhaseOf(args, trace[..n])) <==> FailsBefore(args, trace, n)
  {
    hide Asks, Advance, Reached, Fails, HasFailed;
    if n == 0 {
      NotFailedYet(args, trace);
    } else {
      FailsAlongTheWay(args, server, trace, n - 1);
      RunReaches(args, server, trace, n - 1);
      FailStep(args, trace, n - 1);
      assert trace[..n][..n - 1] == trace[..n - 1];
    }
  }

  lemma NotFailedYet(args: Args, trace: seq<Exchange>)
    ensures !HasFailed(PhaseOf(args, trace[..0]))
  {
  }

  /** A finished run failed exactly if some answer did not let it go on; a failed clean-up is
      no failure. */
  lemma FailuresHaveCauses(args: Args, server: Server, trace: seq<Exchange>)
    requires IsRun(args, server, trace) && PhaseOf(args, trace).Over?
    ensures PhaseOf(args, trace).outcome.Err? <==> FailsBefore(args, trace, |trace|)
  {
    hide IsRun, PhaseOf, FailsBefore;
    FailsAlongTheWay(args, server, trace, |trace|);
    assert trace[..|trace|] == trace;
  }

  /** The release that an upload puts on the track. */
  predicate IsUpload(args: Args, code: int, r: Release) {
    && r.versionCodes == [FormatInt(code)]
    && r.name == (match args.name case Some(name) => if name == "" then FormatInt(code) else name case None => FormatInt(code))
    && r.status == (if args.mode.Complete? then "completed" else "draft")
  }

  /** What has happened when commit is sent, told by the exchanges alone. */
  lemma CommitOnTrace(args: Args, server: Server, trace: seq<Exchange>, i: nat)
    requires IsRun(args, server, trace) && i < |trace| && trace[i].request == Commit
    ensures i == if args.symbols then 6 else 5
    ensures forall j :: 0 <= j < i ==> !Fails(args, trace, j)
    ensures trace[0].request == OpenEdit && trace[1].request == UploadBundle
    ensures trace[1].answer.Reply? && trace[1].answer.versionCode.Some?
    ensures var code := trace[1].answer.versionCode.value;
            && (args.symbols ==> trace[2].request == UploadSymbols(code))
            && trace[i - 3].request == ReadTrack && trace[i - 2].request.PutTrack? && trace[i - 1].request == Validate
            && (var track := trace[i - 2].request.releases; track != [] && IsUpload(args, code, track[|track| - 1]))
  {
    hide PhaseOf, Fails, RefuseInFlight, FormatInt, WithoutDrafts;
    RunReaches(args, server, trace, i);
    FailsAlongTheWay(args, server, trace, i);
    var h := trace[..i];
    assert forall j :: 0 <= j < i ==> h[j] == trace[j];
    assert Staged(args, h, PhaseOf(args, h).code);
  }

  // ----- Nobody's work is thrown away -----

  /** Every existing release that the track loses. */
  predicate Dropped(args: Args, code: int, existing: seq<Release>, r: Release) {
    r in existing && r !in NewReleases(args, code, existing)
  }

  /** What stays, stays in order and as often as it was there. */
  lemma {:induction false} KeptInOrder(a: seq<Release>, b: seq<Release>, r: Release)
    ensures WithoutDrafts(a + b) == WithoutDrafts(a) + WithoutDrafts(b)
    ensures WithoutDrafts([r]) == if r.status == "draft" then [] else [r]
    decreases a
  {
    assert [r][1..] == [];
    if a == [] {
      assert a + b == b;
    } else {
      assert (a + b)[1..] == a[1..] + b;
      KeptInOrder(a[1..], b, r);
    }
  }

  lemma {:induction false} DraftsAreLeftOut(existing: seq<Release>, r: Release)
    ensures r in WithoutDrafts(existing) <==> r in existing && r.status != "draft"
  {
    if existing != [] {
      DraftsAreLeftOut(existing[1..], r);
      assert r in existing <==> r == existing[0] || r in existing[1..];
    }
  }

  /** The track gets the uploaded version code last, as a draft or completed as asked; a draft
      leaves every release that is none in place, and a completed one stands alone. */
  lemma TrackGetsTheUpload(args: Args, code: int, existing: seq<Release>, r: Release)
    ensures var track := NewReleases(args, code, existing);
            && track != [] && track[|track| - 1].versionCodes == [FormatInt(code)]
            && track[|track| - 1].status == (if args.mode.Complete? then "completed" else "draft")
            && (args.mode.Complete? ==> |track| == 1)
            && (!args.mode.Complete? && r in existing && r.status != "draft" ==> r in track)
            && (!args.mode.Complete? && r in track[..|track| - 1] ==> r in existing && r.status != "draft")
  {
    hide WithoutDrafts, FormatInt;
    DraftsAreLeftOut(existing, r);
    assert (WithoutDrafts(existing) + [ReleaseFor(args, code)])[..|WithoutDrafts(existing)|] == WithoutDrafts(existing);
  }

  /** When the track is written, whatever draft it loses, and, completing a release, whatever
      release in flight it loses, carries exactly the uploaded version code. */
  lemma OnlyOwnWorkIsReplaced(args: Args, code: int, existing: seq<Release>, r: Release)
    requires !RefuseInFlight(existing, args.mode, Some(code)) && Dropped(args, code, existing, r)
    ensures args.mode.Complete? && InFlight(r.status) ==> r.versionCodes == [FormatInt(code)]
    ensures !args.mode.Complete? ==> r.status == "draft" && r.versionCodes == [FormatInt(code)]
  {
    var i :| 0 <= i < |existing| && existing[i] == r;
    assert !Blocks(existing[i], args.mode, Some(code));
    if !args.mode.Complete? {
      DraftsAreLeftOut(existing, r);
      assert r !in WithoutDrafts(existing) by {
        assert NewReleases(args, code, existing) == WithoutDrafts(existing) + [ReleaseFor(args, code)];
      }
    }
  }

  /** ... in every run that gets as far as writing: the track written replaces the one the
      server has just answered with, which held nobody else's work. */
  lemma RunsReplaceOnlyOwnWork(args: Args, server: Server, trace: seq<Exchange>, i: nat, r: Release)
    requires IsRun(args, server, trace) && i < |trace| && trace[i].request.PutTrack?
    ensures i >= 1 && trace[i - 1].request == ReadTrack && TrackRead(trace[i - 1].answer)
    ensures exists code ::
              && Delivered(args, trace[..i], code)
              && !RefuseInFlight(Listed(trace[i - 1].answer), args.mode, Some(code))
              && trace[i].request == PutTrack(NewReleases(args, code, Listed(trace[i - 1].answer)))
              && (Dropped(args, code, Listed(trace[i - 1].answer), r) && (!args.mode.Complete? || InFlight(r.status)) ==>
                    InFlight(r.status) && r.versionCodes == [FormatInt(code)])
  {
    hide NewReleases, RefuseInFlight, Delivered, PhaseOf, IsMine, Dropped, TrackRead;
    RunReaches(args, server, trace, i);
    var h := trace[..i];
    var phase := PhaseOf(args, h);
    var code, existing := phase.code, phase.existing;
    assert |h| == i && h[i - 1] == trace[i - 1];
    if Dropped(args, code, existing, r) {
      OnlyOwnWorkIsReplaced(args, code, existing, r);
    }
    assert Delivered(args, h, code) && trace[i].request == PutTrack(NewReleases(args, code, existing));
  }

  // ----- Preflight -----

  /** Before the upload any draft, and for a completed release anything not out completely, is
      in the way. */
  lemma PreflightRefuses(existing: seq<Release>, mode: Mode)
    ensures RefuseInFlight(existing, mode, None) <==>
              exists r :: r in existing && r.status in (if mode.Complete? then {"draft", "inProgress", "halted"} else {"draft"})
  {
    if RefuseInFlight(existing, mode, None) {
      var i :| 0 <= i < |existing| && Blocks(existing[i], mode, None);
      assert existing[i] in existing;
    }
    forall i | 0 <= i < |existing| && existing[i].status in (if mode.Complete? then {"draft", "inProgress", "halted"} else {"draft"})
      ensures RefuseInFlight(existing, mode, None)
    {
      assert Blocks(existing[i], mode, None);
    }
  }

  /** The refusals of preflight are all those of the upload, and exactly the releases that
      carry the uploaded version code are exempt later. */
  lemma PreflightIsStricter(existing: seq<Release>, mode: Mode, code: int)
    ensures !RefuseInFlight(existing, mode, None) ==> !RefuseInFlight(existing, mode, Some(code))
    ensures RefuseInFlight(existing, mode, None) && !RefuseInFlight(existing, mode, Some(code)) ==>
              forall i :: 0 <= i < |existing| && Blocks(existing[i], mode, None) ==> existing[i].versionCodes == [FormatInt(code)]
  {
    if RefuseInFlight(existing, mode, Some(code)) {
      var i :| 0 <= i < |existing| && Blocks(existing[i], mode, Some(code));
      assert Blocks(existing[i], mode, None);
    } else {
      forall i | 0 <= i < |existing| && Blocks(existing[i], mode, None) ensures existing[i].versionCodes == [FormatInt(code)] {
        assert !Blocks(existing[i], mode, Some(code));
      }
    }
  }

  /** Reads the track in an edit of its own, which it drops once, whatever happens. */
  method Preflight(mode: Mode, server: Server) returns (passed: bool, trace: seq<Exchange>)
    ensures forall i :: 0 <= i < |trace| ==> trace[i].answer == server(trace[..i], trace[i].request)
    ensures |trace| >= 1 && trace[0].request == OpenEdit
    ensures !EditOpened(trace[0].answer) ==> |trace| == 1 && !passed
    ensures EditOpened(trace[0].answer) ==>
              && |trace| == 3 && trace[1].request == ReadTrack && trace[2].request == DeleteEdit
              && (passed <==> TrackRead(trace[1].answer) && !RefuseInFlight(Listed(trace[1].answer), mode, None))
  {
    hide RefuseInFlight;
    var edit := server([], OpenEdit);
    var first := Exchange(OpenEdit, edit);
    trace := [first];
    assert trace[..0] == [];
    if !edit.Ok() || edit.editId == "" {
      return false, trace;
    }
    var track := server(trace, ReadTrack);
    passed := TrackRead(track) && !RefuseInFlight(Listed(track), mode, None);
    trace := trace + [Exchange(ReadTrack, track)];
    assert trace[..0] == [] && trace[..1] == [first];
    var dropped := server(trace, DeleteEdit);
    ghost var two := trace;
    trace := trace + [Exchange(DeleteEdit, dropped)];
    assert trace[..0] == [] && trace[..1] == [first] && trace[..2] == two;
  }
}
