/** The emoji verification modal: live frames from a lossy bus merged with authoritative
    re-reads of the flow, the user's answers, and the outcome of the requests it sent. */
module Verification {
  import opened Text

  datatype Direction = Incoming | Outgoing

  datatype Stage = Starting | Waiting | Compare | Confirming | Done | Ended(message: string) {
    predicate Terminal() { Done? || Ended? }
  }

  datatype FlowStage = Requested | Ready | KeysExchanged | Confirmed | Finished | Cancelled

  datatype Emoji = Emoji(symbol: string, description: string)

  type Decimals = (nat, nat, nat)

  /** An authoritative read of the flow. */
  datatype FlowDto = FlowDto(
    flowId: string, userId: string, deviceId: Option<string>, stage: FlowStage,
    emoji: Option<seq<Emoji>>, decimals: Option<Decimals>, cancelReason: Option<string>)

  datatype FrameKind = RequestedFrame | SasFrame | DoneFrame | CancelledFrame

  /** A live frame. */
  datatype Frame = Frame(
    flowId: string, userId: string, deviceId: Option<string>,
    emoji: Option<seq<Emoji>>, decimals: Option<Decimals>, reason: Option<string>)

  /** The state of the modal. */
  datatype Flow = Flow(
    accountId: nat, userId: string, deviceId: string, flowId: Option<string>,
    direction: Direction, stage: Stage, emoji: Option<seq<Emoji>>, decimals: Option<Decimals>)
  {
    predicate Matches(account: nat, id: string) {
      accountId == account && flowId == Some(id)
    }

    predicate IsPendingOutgoingDevice(account: nat, device: Option<string>) {
      accountId == account && flowId.None? && direction.Outgoing? && device.Some? && device.value != "" && deviceId == device.value
    }
  }

  function CancelMessage(reason: Option<string>): string {
    "Verification cancelled" + if reason.Some? then " — " + reason.value else ""
  }

  function StageFrom(stage: FlowStage, hasEmoji: bool, cancelReason: Option<string>): Stage {
    match stage
    case Requested => Waiting
    case Ready => Waiting
    case KeysExchanged => if hasEmoji then Compare else Waiting
    case Confirmed => Confirming
    case Finished => Done
    case Cancelled => Ended(CancelMessage(cancelReason))
  }

  function Adopt(own: string, reported: string): string {
    if own == "" then reported else own
  }

  function AdoptOption(own: string, reported: Option<string>): string {
    if reported.Some? then Adopt(own, reported.value) else own
  }

  function Newer<T>(own: Option<T>, reported: Option<T>): Option<T> {
    if reported.Some? then reported else own
  }

  /** Merging a re-read. */
  function AfterRead(f: Flow, dto: FlowDto): Flow {
    var emoji := Newer(f.emoji, dto.emoji);
    var next := StageFrom(dto.stage, emoji.Some?, dto.cancelReason);
    f.(userId := Adopt(f.userId, dto.userId),
       deviceId := AdoptOption(f.deviceId, dto.deviceId),
       emoji := emoji,
       decimals := Newer(f.decimals, dto.decimals),
       stage := if f.stage.Confirming? && next.Compare? then f.stage else next)
  }

  /** Merging a live frame. */
  function AfterFrame(f: Flow, kind: FrameKind, frame: Frame): Flow {
    var bound := f.(flowId := if f.flowId.None? then Some(frame.flowId) else f.flowId,
                    userId := Adopt(f.userId, frame.userId),
                    deviceId := AdoptOption(f.deviceId, frame.deviceId));
    match kind
    case RequestedFrame => if f.stage.Terminal() then bound else bound.(stage := Waiting)
    case SasFrame =>
      bound.(emoji := Newer(f.emoji, frame.emoji), decimals := Newer(f.decimals, frame.decimals),
             stage := if f.stage.Confirming? then f.stage else Compare)
    case DoneFrame => bound.(stage := Done)
    case CancelledFrame => bound.(stage := Ended(CancelMessage(frame.reason)))
  }

  /** The modal's state, updated in place. */
  class VerificationFlow {
    const accountId: nat
    const direction: Direction
    var userId: string
    var deviceId: string
    var flowId: Option<string>
    var stage: Stage
    var emoji: Option<seq<Emoji>>
    var decimals: Option<Decimals>

    constructor (f: Flow)
      ensures View() == f
    {
      accountId, direction := f.accountId, f.direction;
      userId, deviceId, flowId, stage := f.userId, f.deviceId, f.flowId, f.stage;
      emoji, decimals := f.emoji, f.decimals;
    }

    function View(): Flow
      reads this
    {
      Flow(accountId, userId, deviceId, flowId, direction, stage, emoji, decimals)
    }

    /** Takes over the user and the device the server reports, where they are not known yet. */
    method AdoptIdentity(user: string, device: Option<string>)
      modifies this`userId, this`deviceId
      ensures userId == Adopt(old(userId), user) && deviceId == AdoptOption(old(deviceId), device)
    {
      if userId == "" && user != "" {
        userId := user;
      }
      if device.Some? {
        if deviceId == "" {
          deviceId := device.value;
        }
      }
    }

    method ApplyFlow(flow: FlowDto)
      modifies this
      ensures View() == AfterRead(old(View()), flow)
    {
      hide CancelMessage;
      AdoptIdentity(flow.userId, flow.deviceId);
      if flow.emoji.Some? {
        emoji := flow.emoji;
      }
      if flow.decimals.Some? {
        decimals := flow.decimals;
      }
      var next := StageFrom(flow.stage, emoji.Some?, flow.cancelReason);
      if !(stage == Confirming && next == Compare) {
        stage := next;
      }
    }

    method ApplyFrame(kind: FrameKind, payload: Frame)
      modifies this
      ensures View() == AfterFrame(old(View()), kind, payload)
    {
      hide CancelMessage;
      if flowId == None {
        flowId := Some(payload.flowId);
      }
      AdoptIdentity(payload.userId, payload.deviceId);
      match kind
      case RequestedFrame =>
        if !stage.Terminal() {
          stage := Waiting;
        }
      case SasFrame =>
        if payload.emoji.Some? {
          emoji := payload.emoji;
        }
        if payload.decimals.Some? {
          decimals := payload.decimals;
        }
        if stage != Confirming {
          stage := Compare;
        }
      case DoneFrame =>
        stage := Done;
      case CancelledFrame =>
        stage := Ended(CancelMessage(payload.reason));
    }
  }

  // ----- Everything that happens to an open modal -----

  datatype Event =
    | Live(account: nat, kind: FrameKind, frame: Frame)
    | Resynced(account: nat, id: string, dto: FlowDto)
    | Started(account: nat, id: string)
    | Failed(account: nat, failedId: Option<string>, message: string)
    | PressYes
    | PressNo

  /** A frame reaches the modal when it is for its flow, or, unless it is a request, for the
      device of an outgoing verification whose flow id has not come back yet. */
  predicate Applies(f: Flow, account: nat, kind: FrameKind, frame: Frame) {
    || f.Matches(account, frame.flowId)
    || (!kind.RequestedFrame? && f.IsPendingOutgoingDevice(account, frame.deviceId))
  }

  function Step(f: Flow, e: Event): Flow {
    match e
    case Live(account, kind, frame) => if Applies(f, account, kind, frame) then AfterFrame(f, kind, frame) else f
    case Resynced(account, id, dto) =>
      if f.Matches(account, id) && !f.stage.Terminal() then AfterRead(f, dto) else f
    case Started(account, id) =>
      if f.accountId == account && f.flowId.None?
      then f.(flowId := Some(id), stage := if f.stage.Starting? then Waiting else f.stage)
      else f
    case Failed(account, id, message) =>
      if f.accountId == account && (id.None? || f.flowId == id) && !f.stage.Terminal()
      then f.(stage := Ended(message))
      else f
    case PressYes => if f.stage.Compare? && f.flowId.Some? then f.(stage := Confirming) else f
    case PressNo => if f.stage.Terminal() then f else f.(stage := Ended("Verification cancelled"))
  }

  function Run(f: Flow, events: seq<Event>): Flow {
    if events == [] then f else Step(Run(f, events[..|events| - 1]), events[|events| - 1])
  }

  // ----- What is never lost -----

  /** Identity, once known, is fixed; data of the comparison, once received, stays. */
  predicate Keeps(before: Flow, after: Flow) {
    && after.accountId == before.accountId && after.direction == before.direction
    && (before.flowId.Some? ==> after.flowId == before.flowId)
    && (before.userId != "" ==> after.userId == before.userId)
    && (before.deviceId != "" ==> after.deviceId == before.deviceId)
    && (before.emoji.Some? ==> after.emoji.Some?)
    && (before.decimals.Some? ==> after.decimals.Some?)
  }

  lemma StepKeeps(f: Flow, e: Event)
    ensures Keeps(f, Step(f, e))
    ensures !(f.stage.Confirming? && Step(f, e).stage.Compare?)
  {
  }

  /** In every interleaving, from any point on. */
  lemma {:induction false} RunKeeps(f: Flow, events: seq<Event>, i: nat)
    requires i <= |events|
    ensures Keeps(Run(f, events[..i]), Run(f, events))
    decreases |events|
  {
    hide Keeps, Step;
    var n := |events| - 1;
    if i <= n {
      var prefix := events[..n];
      assert prefix[..i] == events[..i];
      RunKeeps(f, prefix, i);
      StepKeeps(Run(f, prefix), events[n]);
      KeepsIsTransitive(Run(f, events[..i]), Run(f, prefix), Run(f, events));
    } else {
      assert events[..i] == events;
      KeepsIsReflexive(Run(f, events));
    }
  }

  lemma KeepsIsTransitive(a: Flow, b: Flow, c: Flow)
    requires Keeps(a, b) && Keeps(b, c)
    ensures Keeps(a, c)
  {
  }

  lemma KeepsIsReflexive(a: Flow)
    ensures Keeps(a, a)
  {
  }

  /** The comparison is never shown again after the user has answered it: between an answer
      and a later comparison the modal must have left the confirming stage otherwise. */
  lemma {:induction false} ConfirmingIsNotReopened(f: Flow, events: seq<Event>, i: nat, j: nat)
    requires i < j <= |events|
    requires Run(f, events[..i]).stage.Confirming? && Run(f, events[..j]).stage.Compare?
    ensures exists k :: i < k < j && !Run(f, events[..k]).stage.Confirming? && !Run(f, events[..k]).stage.Compare?
    decreases j - i
  {
    hide Step;
    var next := Run(f, events[..i + 1]);
    assert events[..i + 1][..i] == events[..i];
    StepKeeps(Run(f, events[..i]), events[i]);
    if next.stage.Confirming? {
      ConfirmingIsNotReopened(f, events, i + 1, j);
    }
  }

  // ----- Repeats and foreign traffic -----

  /** A frame or a read seen twice says nothing new. */
  lemma RepeatsChangeNothing(f: Flow, e: Event)
    requires e.Live? || e.Resynced?
    ensures Step(Step(f, e), e) == Step(f, e)
  {
  }

  /** Traffic of some other flow of the account. */
  predicate Foreign(id: string, e: Event) {
    match e
    case Live(_, _, frame) => frame.flowId != id
    case Resynced(_, other, _) => other != id
    case Started(_, _) => true
    case Failed(_, other, _) => other.Some? && other.value != id
    case _ => false
  }

  function WithoutForeign(id: string, events: seq<Event>): seq<Event> {
    if events == [] then []
    else
      var n := |events| - 1;
      WithoutForeign(id, events[..n]) + if Foreign(id, events[n]) then [] else [events[n]]
  }

  /** A bound modal is deaf to every other flow: taking all foreign traffic out of any
      interleaving changes nothing. */
  lemma {:induction false} ForeignTrafficIsIgnored(f: Flow, id: string, events: seq<Event>)
    requires f.flowId == Some(id)
    ensures Run(f, events) == Run(f, WithoutForeign(id, events))
    ensures Run(f, events).flowId == Some(id)
    decreases |events|
  {
    if events != [] {
      var n := |events| - 1;
      var prefix, kept := events[..n], WithoutForeign(id, events[..n]);
      ForeignTrafficIsIgnored(f, id, prefix);
      StepKeeps(Run(f, prefix), events[n]);
      if Foreign(id, events[n]) {
        assert kept + [] == kept;
      } else {
        assert (kept + [events[n]])[..|kept|] == kept;
      }
    }
  }

  // ----- Convergence -----

  /** What a read cannot settle: keys are exchanged, and the copies differ in knowing the
      emoji, or, both knowing them, in the user's answer. */
  predicate Undecided(a: Flow, b: Flow, dto: FlowDto) {
    && dto.stage.KeysExchanged?
    && (|| (dto.emoji.None? && a.emoji.Some? != b.emoji.Some?)
        || ((dto.emoji.Some? || a.emoji.Some?) && a.stage.Confirming? != b.stage.Confirming?))
  }

  /** Two copies that saw different traffic agree on the stage after the same read, exactly
      when the read settles it. */
  lemma ReadsConverge(a: Flow, b: Flow, dto: FlowDto)
    ensures AfterRead(a, dto).stage == AfterRead(b, dto).stage <==> !Undecided(a, b, dto)
  {
  }

  /** The read reports the end of the flow that a finished copy shows already. */
  predicate Reports(dto: FlowDto, stage: Stage) {
    || (dto.stage.Finished? && stage.Done?)
    || (dto.stage.Cancelled? && stage == Ended(CancelMessage(dto.cancelReason)))
  }

  /** A finished copy takes no read. So a read settles two open copies unless they are
      undecided, an open and a finished one if it reports that very end, and two finished
      ones never: they must have ended alike. */
  predicate Settled(a: Flow, b: Flow, dto: FlowDto) {
    if a.stage.Terminal() && b.stage.Terminal() then a.stage == b.stage
    else if a.stage.Terminal() then Reports(dto, a.stage)
    else if b.stage.Terminal() then Reports(dto, b.stage)
    else !Undecided(a, b, dto)
  }

  /** Two copies started alike, fed any two interleavings, show the same stage after one more
      read of the flow exactly when it settles them. If both are open then and the read carries
      the comparison, they agree on everything but an answer given to one of them only. */
  lemma CopiesConverge(f: Flow, id: string, left: seq<Event>, right: seq<Event>, dto: FlowDto)
    requires f.flowId == Some(id)
    ensures var a, b, e := Run(f, left), Run(f, right), Resynced(f.accountId, id, dto);
            && (Run(f, left + [e]).stage == Run(f, right + [e]).stage <==> Settled(a, b, dto))
            && (f.userId != "" && f.deviceId != "" && dto.emoji.Some? && dto.decimals.Some?
                && !a.stage.Terminal() && !b.stage.Terminal() ==>
                  (Run(f, left + [e]) == Run(f, right + [e]) <==>
                   !(dto.stage.KeysExchanged? && a.stage.Confirming? != b.stage.Confirming?)))
  {
    hide Step, CancelMessage;
    var e := Resynced(f.accountId, id, dto);
    RunKeeps(f, left, 0);
    RunKeeps(f, right, 0);
    assert left[..0] == [] && right[..0] == [];
    assert (left + [e])[..|left|] == left && (right + [e])[..|right|] == right;
    ReadEventSettles(Run(f, left), Run(f, right), f.accountId, id, dto);
  }

  lemma ReadEventSettles(a: Flow, b: Flow, account: nat, id: string, dto: FlowDto)
    requires a.Matches(account, id) && b.Matches(account, id)
    ensures var e := Resynced(account, id, dto);
            && (Step(a, e).stage == Step(b, e).stage <==> Settled(a, b, dto))
            && (a.userId == b.userId != "" && a.deviceId == b.deviceId != "" && a.direction == b.direction
                && dto.emoji.Some? && dto.decimals.Some? && !a.stage.Terminal() && !b.stage.Terminal() ==>
                  (Step(a, e) == Step(b, e) <==> Settled(a, b, dto)))
  {
  }

  /** A read does not bring together a copy that saw the flow cancelled and one that did not. */
  lemma CancelledCopyStaysBehind(f: Flow, cancel: Frame, dto: FlowDto)
    requires !f.stage.Terminal() && f.flowId == Some(cancel.flowId) && dto.stage.Ready?
    ensures var frame, read := Live(f.accountId, CancelledFrame, cancel), Resynced(f.accountId, cancel.flowId, dto);
            && Run(f, [frame, read]).stage == Ended(CancelMessage(cancel.reason))
            && Run(f, [read]).stage.Waiting?
  {
    var frame, read := Live(f.accountId, CancelledFrame, cancel), Resynced(f.accountId, cancel.flowId, dto);
    RunOfTwo(f, frame, read);
    assert [read][..0] == [];
  }

  // ----- Terminal stages -----

  /** A finished modal is reopened by one thing only: a late frame with the comparison. */
  lemma TerminalIsLeftOnlyByLateSas(f: Flow, e: Event)
    requires f.stage.Terminal()
    ensures !Step(f, e).stage.Terminal() <==> e.Live? && e.kind.SasFrame? && Applies(f, e.account, e.kind, e.frame)
    ensures !Step(f, e).stage.Terminal() ==> Step(f, e).stage.Compare?
  {
  }

  predicate IsSas(e: Event) { e.Live? && e.kind.SasFrame? }

  lemma {:induction false} TerminalUntilLateSas(f: Flow, events: seq<Event>)
    requires f.stage.Terminal() && forall i :: 0 <= i < |events| ==> !IsSas(events[i])
    ensures Run(f, events).stage.Terminal()
  {
    hide Step;
    if events != [] {
      var n := |events| - 1;
      TerminalUntilLateSas(f, events[..n]);
      TerminalIsLeftOnlyByLateSas(Run(f, events[..n]), events[n]);
    }
  }

  /** Whatever ended it, a verification is put back before the user by a late frame, and can be confirmed. */
  lemma CancelledFlowCanBeConfirmed(f: Flow, late: Frame)
    requires f.stage.Ended? && f.flowId == Some(late.flowId)
    ensures Run(f, [Live(f.accountId, SasFrame, late), PressYes]).stage.Confirming?
  {
    RunOfTwo(f, Live(f.accountId, SasFrame, late), PressYes);
  }

  lemma RunOfTwo(f: Flow, a: Event, b: Event)
    ensures Run(f, [a, b]) == Step(Step(f, a), b)
  {
    hide Step;
    assert [a, b][..1] == [a] && [a][..0] == [];
    assert Run(f, [a]) == Step(f, a);
  }

  // ----- Claims have causes -----

  predicate SaysDone(e: Event) {
    (e.Live? && e.kind.DoneFrame?) || (e.Resynced? && e.dto.stage.Finished?)
  }

  predicate SaysConfirmed(e: Event) {
    e.PressYes? || (e.Resynced? && e.dto.stage.Confirmed?)
  }

  /** The event is for the modal, in a stage that lets it through. */
  predicate Took(f: Flow, e: Event) {
    match e
    case Live(account, kind, frame) => Applies(f, account, kind, frame)
    case Resynced(account, id, _) => f.Matches(account, id) && !f.stage.Terminal()
    case Started(account, _) => f.accountId == account && f.flowId.None?
    case Failed(account, id, _) => f.accountId == account && (id.None? || f.flowId == id) && !f.stage.Terminal()
    case PressYes => f.stage.Compare? && f.flowId.Some?
    case PressNo => !f.stage.Terminal()
  }

  lemma StageHasCause(f: Flow, e: Event)
    ensures Step(f, e).stage.Done? ==> f.stage.Done? || (SaysDone(e) && Took(f, e))
    ensures Step(f, e).stage.Confirming? ==> f.stage.Confirming? || (SaysConfirmed(e) && Took(f, e))
  {
  }

  /** The modal never claims success on its own: in every run some frame or read for it said
      so when it came; and it never awaits the peer unless the user, asked, or the server confirmed. */
  lemma {:induction false} ClaimsHaveCauses(f: Flow, events: seq<Event>)
    ensures !f.stage.Done? && Run(f, events).stage.Done? ==>
              exists i :: 0 <= i < |events| && SaysDone(events[i]) && Took(Run(f, events[..i]), events[i])
    ensures !f.stage.Confirming? && Run(f, events).stage.Confirming? ==>
              exists i :: 0 <= i < |events| && SaysConfirmed(events[i]) && Took(Run(f, events[..i]), events[i])
  {
    hide Step, SaysDone, SaysConfirmed, Took;
    if events != [] {
      var n := |events| - 1;
      var prefix := events[..n];
      ClaimsHaveCauses(f, prefix);
      StageHasCause(Run(f, prefix), events[n]);
      assert forall i :: 0 <= i < n ==> prefix[i] == events[i] && prefix[..i] == events[..i];
    }
  }

  /** And what the server says is shown: the end of a flow by a frame for it, or by a read of a
      modal not ended yet, whose every other stage it leaves open. */
  lemma EndsAreShown(f: Flow, e: Event)
    ensures e.Live? && Applies(f, e.account, e.kind, e.frame) && e.kind.DoneFrame? ==> Step(f, e).stage.Done?
    ensures e.Live? && Applies(f, e.account, e.kind, e.frame) && e.kind.CancelledFrame? ==>
              Step(f, e).stage == Ended(match e.frame.reason case None => "Verification cancelled"
                                                             case Some(r) => "Verification cancelled — " + r)
    ensures e.Resynced? && f.Matches(e.account, e.id) && !f.stage.Terminal() ==>
              && (Step(f, e).stage.Done? <==> e.dto.stage.Finished?)
              && (Step(f, e).stage.Ended? <==> e.dto.stage.Cancelled?)
    ensures e.PressNo? && !f.stage.Terminal() ==> Step(f, e).stage == Ended("Verification cancelled")
    ensures e.Failed? && Took(f, e) ==> Step(f, e).stage == Ended(e.message)
  {
    assert "Verification cancelled" + "" == "Verification cancelled";
    assert e.Live? && e.frame.reason.Some? ==>
      "Verification cancelled" + (" — " + e.frame.reason.value) == "Verification cancelled — " + e.frame.reason.value;
  }

  /** A modal not ended shows where the flow stands: a request or an early read, that it waits;
      the comparison, once there is one and until it is answered; then that it confirms. */
  lemma ProgressIsShown(f: Flow, e: Event)
    requires Took(f, e) && !f.stage.Terminal()
    ensures e.Live? && e.kind.RequestedFrame? ==> Step(f, e).stage.Waiting?
    ensures e.Live? && e.kind.SasFrame? ==> Step(f, e).stage == if f.stage.Confirming? then Confirming else Compare
    ensures e.Resynced? && (e.dto.stage.Requested? || e.dto.stage.Ready?) ==> Step(f, e).stage.Waiting?
    ensures e.Resynced? && e.dto.stage.KeysExchanged? ==>
              Step(f, e).stage == if f.emoji.None? && e.dto.emoji.None? then Waiting
                                  else if f.stage.Confirming? then Confirming else Compare
    ensures e.Resynced? && e.dto.stage.Confirmed? ==> Step(f, e).stage.Confirming?
    ensures e.Started? ==> Step(f, e).flowId == Some(e.id) && (f.stage.Starting? ==> Step(f, e).stage.Waiting?)
    ensures e.PressYes? ==> Step(f, e).stage.Confirming?
  {
  }

  // ----- Who is heard -----

  /** A frame for a modal that has no flow yet: heard if it comes from the device asked, for the
      account that asked, and is no new request; then it binds the flow. All else is ignored. */
  lemma UnboundModalHears(f: Flow, account: nat, kind: FrameKind, frame: Frame)
    requires f.flowId.None?
    ensures var heard := account == f.accountId && f.direction.Outgoing? && !kind.RequestedFrame?
                         && frame.deviceId == Some(f.deviceId) && f.deviceId != "";
            && (heard ==> Step(f, Live(account, kind, frame)).flowId == Some(frame.flowId))
            && (!heard ==> Step(f, Live(account, kind, frame)) == f)
  {
  }

  /** What does not get through changes nothing; a modal with a flow takes frames and reads of
      that flow and account only. */
  lemma OthersAreNotHeard(f: Flow, e: Event)
    ensures !Took(f, e) ==> Step(f, e) == f
    ensures f.flowId.Some? && e.Live? ==> (Took(f, e) <==> e.account == f.accountId && e.frame.flowId == f.flowId.value)
    ensures f.flowId.Some? && e.Resynced? && Took(f, e) ==> e.account == f.accountId && e.id == f.flowId.value
    ensures f.flowId.Some? && e.Started? ==> !Took(f, e)
  {
  }

  // ----- What is remembered -----

  /** One of the two things there are to compare. */
  datatype Datum = TheEmoji(emoji: seq<Emoji>) | TheDecimals(decimals: Decimals)

  function AsDatum(emoji: Option<seq<Emoji>>, decimals: Option<Decimals>, numbers: bool): Option<Datum> {
    if numbers then (if decimals.Some? then Some(TheDecimals(decimals.value)) else None)
    else (if emoji.Some? then Some(TheEmoji(emoji.value)) else None)
  }

  /** The emoji, or the decimals, that an event brings. */
  function Brings(e: Event, numbers: bool): Option<Datum> {
    match e
    case Live(_, SasFrame, frame) => AsDatum(frame.emoji, frame.decimals, numbers)
    case Resynced(_, _, dto) => AsDatum(dto.emoji, dto.decimals, numbers)
    case _ => None
  }

  function Compared(f: Flow, numbers: bool): Option<Datum> { AsDatum(f.emoji, f.decimals, numbers) }

  /** Event `j` of a run gets through when it comes. */
  predicate Heard(f: Flow, events: seq<Event>, j: nat)
    requires j < |events|
  {
    Took(Run(f, events[..j]), events[j])
  }

  lemma HeardEarlier(f: Flow, events: seq<Event>, j: nat)
    requires j < |events| - 1
    ensures events[..|events| - 1][j] == events[j]
    ensures Heard(f, events[..|events| - 1], j) <==> Heard(f, events, j)
  {
    hide Took, Run;
    assert events[..|events| - 1][..j] == events[..j];
  }

  lemma LastStep(f: Flow, events: seq<Event>)
    requires events != []
    ensures var n := |events| - 1;
            && Run(f, events) == Step(Run(f, events[..n]), events[n])
            && (Heard(f, events, n) <==> Took(Run(f, events[..n]), events[n]))
  {
    hide Took, Step;
  }

  /** Nothing that was heard after the first `n` events brought any. */
  predicate NoneAfter(f: Flow, events: seq<Event>, n: nat, numbers: bool) {
    forall j :: n <= j < |events| && Heard(f, events, j) ==> Brings(events[j], numbers).None?
  }

  predicate BroughtAt(f: Flow, events: seq<Event>, i: nat, numbers: bool) {
    i < |events| && Heard(f, events, i) && Brings(events[i], numbers).Some? && NoneAfter(f, events, i + 1, numbers)
  }

  lemma DatumStep(f: Flow, e: Event, numbers: bool)
    ensures Compared(Step(f, e), numbers)
         == if Took(f, e) && Brings(e, numbers).Some? then Brings(e, numbers) else Compared(f, numbers)
  {
  }

  lemma NoneAfterLonger(f: Flow, events: seq<Event>, n: nat, numbers: bool)
    requires events != [] && NoneAfter(f, events[..|events| - 1], n, numbers) && n <= |events| - 1
    requires Heard(f, events, |events| - 1) ==> Brings(events[|events| - 1], numbers).None?
    ensures NoneAfter(f, events, n, numbers)
  {
    hide Heard, Brings;
    forall j | n <= j < |events| && Heard(f, events, j) ensures Brings(events[j], numbers).None? {
      if j < |events| - 1 {
        HeardEarlier(f, events, j);
      }
    }
  }

  /** The emoji and the decimals shown are always those heard last, in every run. */
  lemma {:induction false} LatestDataAreShown(f: Flow, events: seq<Event>, numbers: bool)
    ensures || (Compared(Run(f, events), numbers) == Compared(f, numbers) && NoneAfter(f, events, 0, numbers))
            || exists i: nat :: BroughtAt(f, events, i, numbers) && Compared(Run(f, events), numbers) == Brings(events[i], numbers)
    decreases |events|
  {
    hide Step, Took, Brings, Heard, NoneAfter, Compared;
    if events == [] {
      NothingHeard(f, numbers);
    } else {
      var n := |events| - 1;
      var prefix := events[..n];
      LatestDataAreShown(f, prefix, numbers);
      LastStep(f, events);
      DatumStep(Run(f, prefix), events[n], numbers);
      if Heard(f, events, n) && Brings(events[n], numbers).Some? {
        NothingLeft(f, events, numbers);
        assert BroughtAt(f, events, n, numbers);
      } else if Compared(Run(f, prefix), numbers) == Compared(f, numbers) && NoneAfter(f, prefix, 0, numbers) {
        NoneAfterLonger(f, events, 0, numbers);
      } else {
        var i: nat :| BroughtAt(f, prefix, i, numbers) && Compared(Run(f, prefix), numbers) == Brings(prefix[i], numbers);
        HeardEarlier(f, events, i);
        NoneAfterLonger(f, events, i + 1, numbers);
        assert BroughtAt(f, events, i, numbers);
      }
    }
  }

  lemma NothingHeard(f: Flow, numbers: bool)
    ensures NoneAfter(f, [], 0, numbers)
  {
  }

  lemma NothingLeft(f: Flow, events: seq<Event>, numbers: bool)
    ensures NoneAfter(f, events, |events|, numbers)
  {
  }

  /** The user or the device an event tells of; empty if it tells none. */
  function Tells(e: Event, device: bool): string {
    match e
    case Live(_, _, frame) => if !device then frame.userId else if frame.deviceId.Some? then frame.deviceId.value else ""
    case Resynced(_, _, dto) => if !device then dto.userId else if dto.deviceId.Some? then dto.deviceId.value else ""
    case _ => ""
  }

  function Known(f: Flow, device: bool): string { if device then f.deviceId else f.userId }

  predicate NoneBefore(f: Flow, events: seq<Event>, n: nat, device: bool)
    requires n <= |events|
  {
    forall j :: 0 <= j < n && Heard(f, events, j) ==> Tells(events[j], device) == ""
  }

  predicate ToldAt(f: Flow, events: seq<Event>, i: nat, device: bool) {
    i < |events| && Heard(f, events, i) && Tells(events[i], device) != "" && NoneBefore(f, events, i, device)
  }

  lemma KnownStep(f: Flow, e: Event, device: bool)
    ensures Known(Step(f, e), device)
         == if Known(f, device) == "" && Took(f, e) then Tells(e, device) else Known(f, device)
  {
  }

  lemma NoneBeforeLonger(f: Flow, events: seq<Event>, n: nat, device: bool)
    requires n < |events| && NoneBefore(f, events[..|events| - 1], n, device)
    ensures NoneBefore(f, events, n, device)
  {
    hide Heard, Tells;
    forall j | 0 <= j < n && Heard(f, events, j) ensures Tells(events[j], device) == "" {
      HeardEarlier(f, events, j);
    }
  }

  /** An unknown user or device becomes the first one heard of, in every run. */
  lemma {:induction false} IdentityIsTheFirst(f: Flow, events: seq<Event>, device: bool)
    requires Known(f, device) == ""
    ensures || (Known(Run(f, events), device) == "" && NoneBefore(f, events, |events|, device))
            || exists i: nat :: ToldAt(f, events, i, device) && Known(Run(f, events), device) == Tells(events[i], device)
    decreases |events|
  {
    hide Step, Took, Tells, Known, Heard;
    if events != [] {
      var n := |events| - 1;
      var prefix := events[..n];
      IdentityIsTheFirst(f, prefix, device);
      LastStep(f, events);
      KnownStep(Run(f, prefix), events[n], device);
      if Known(Run(f, prefix), device) != "" {
        var i: nat :| ToldAt(f, prefix, i, device) && Known(Run(f, prefix), device) == Tells(prefix[i], device);
        HeardEarlier(f, events, i);
        NoneBeforeLonger(f, events, i, device);
        assert ToldAt(f, events, i, device);
      } else {
        NoneBeforeLonger(f, events, n, device);
        assert Heard(f, events, n) && Tells(events[n], device) != "" ==> ToldAt(f, events, n, device);
      }
    }
  }

  // ----- The comparison has something to show -----

  predicate Shown(f: Flow) {
    f.stage.Compare? ==> f.emoji.Some?
  }

  /** A comparison without emoji comes from one thing only: a frame that brings none. */
  lemma BlankComparison(f: Flow, e: Event)
    requires Shown(f)
    ensures !Shown(Step(f, e)) <==>
              && IsSas(e) && Applies(f, e.account, e.kind, e.frame)
              && e.frame.emoji.None? && f.emoji.None? && !f.stage.Confirming?
  {
  }

  /** Such a frame, and a modal that waits: the user is asked to compare nothing. */
  lemma BlankComparisonHappens()
    ensures var f := Flow(0, "@ann:example.org", "PHONE", Some("flow"), Incoming, Waiting, None, None);
            var frame := Frame("flow", "@ann:example.org", Some("PHONE"), None, Some((1, 2, 3)), None);
            Shown(f) && !Shown(Run(f, [Live(0, SasFrame, frame)]))
  {
    var frame := Frame("flow", "@ann:example.org", Some("PHONE"), None, Some((1, 2, 3)), None);
    assert [Live(0, SasFrame, frame)][..0] == [];
  }

  lemma {:induction false} ComparisonIsNeverBlank(f: Flow, events: seq<Event>)
    requires Shown(f) && forall i :: 0 <= i < |events| && IsSas(events[i]) ==> events[i].frame.emoji.Some?
    ensures Shown(Run(f, events))
  {
    hide Step, Shown;
    if events != [] {
      var n := |events| - 1;
      ComparisonIsNeverBlank(f, events[..n]);
      BlankComparison(Run(f, events[..n]), events[n]);
    }
  }
}
