/** The status change a user requests by clicking a slider label
    (sst-doc.js:599-673), together with the ticket creation it may start
    (`createIssue`, sst-doc.js:205-232) and the write of the new status
    (`updateStation`, sst-doc.js:176-193).

    The handler's reads (`getStationStatus`, `getTicketID`,
    `checkTicketStatus` and the reply to the ticket-creation request) become
    a `Replies` value, `None` standing for a call that threw. Its writes
    become a trace of `Call`s, in order. Colours, note visibility and links
    are display only and are not part of the trace. */
module Reconcile {
  import opened Wrappers
  import opened StationIds

  // ---------------------------------------------------------------------
  // String tests

  /** `sub` occurs in `s` starting at position `i`. */
  predicate OccursAt(s: string, sub: string, i: nat) {
    i + |sub| <= |s| && s[i..i + |sub|] == sub
  }

  /** `s.includes(sub)`. */
  predicate Includes(s: string, sub: string)
    decreases |s|
  {
    if |s| < |sub| then false
    else if s[..|sub|] == sub then true
    else Includes(s[1..], sub)
  }

  lemma {:induction false} IncludesIffOccurs(s: string, sub: string)
    ensures Includes(s, sub) <==> exists i: nat :: OccursAt(s, sub, i)
    decreases |s|
  {
    if |s| < |sub| {
    } else if s[..|sub|] == sub {
      assert OccursAt(s, sub, 0);
    } else {
      IncludesIffOccurs(s[1..], sub);
      if Includes(s[1..], sub) {
        var i: nat :| OccursAt(s[1..], sub, i);
        assert s[i + 1..i + 1 + |sub|] == s[1..][i..i + |sub|];
        assert OccursAt(s, sub, i + 1);
      }
      if exists i: nat :: OccursAt(s, sub, i) {
        var i: nat :| OccursAt(s, sub, i);
        assert i != 0;
        assert s[1..][i - 1..i - 1 + |sub|] == s[i..i + |sub|];
        assert OccursAt(s[1..], sub, i - 1);
      }
    }
  }

  /** A string includes anything spliced into it. */
  lemma IncludesSplice(a: string, sub: string, b: string)
    ensures Includes(a + sub + b, sub)
  {
    var s := a + sub + b;
    assert s[|a|..|a| + |sub|] == sub;
    assert OccursAt(s, sub, |a|);
    IncludesIffOccurs(s, sub);
  }

  /** A string lacking one of the characters of `sub` does not include it. */
  lemma {:induction false} MissingCharNotIncluded(s: string, sub: string, k: nat)
    requires k < |sub| && sub[k] !in s
    ensures !Includes(s, sub)
    decreases |s|
  {
    if |s| >= |sub| {
      assert s[..|sub|][k] == s[k];
      assert forall c :: c in s[1..] ==> c in s;
      MissingCharNotIncluded(s[1..], sub, k);
    }
  }

  // ---------------------------------------------------------------------
  // The decision

  /** The three branches of the handler, checked in this order. */
  datatype Branch = Up | Down | Issues

  function BranchOf(str: string): Branch {
    if Includes(str, "up") then Up
    else if Includes(str, "down") then Down
    else Issues
  }

  /** The status a branch writes when it writes a literal. */
  function StatusName(b: Branch): (name: string)
    ensures BranchOf(name) == b
  {
    match b
    case Up =>
      assert Includes("up", "up");
      "up"
    case Down =>
      MissingCharNotIncluded("down", "up", 0);
      assert "down"[..4] == "down";
      "down"
    case Issues =>
      MissingCharNotIncluded("issues", "up", 1);
      MissingCharNotIncluded("issues", "down", 0);
      "issues"
  }

  /** The ticket lifecycle values that count as resolved; any other value,
      including one the service never uses, counts as still open. */
  predicate IsResolved(lifecycle: string) {
    lifecycle == "Closed" || lifecycle == "Resolved"
  }

  /** What the handler does next, before any call is made. */
  datatype Effect =
    | PersistStatus(status: string, ticketId: Option<string>)
    | CreateTicketThenPersist(status: string)
    | RevertDisplay(status: string)

  /** The branch structure of sst-doc.js:617-672. `str` is the status of
      the clicked label, `cstatus` the persisted one, `tid` the station's
      ticket id, if the lookup produced one. */
  function Decide(str: string, lifecycle: string, cstatus: string, tid: Option<string>): (e: Effect)
    ensures e.RevertDisplay? <==> BranchOf(str) == Up && !IsResolved(lifecycle)
    ensures e.CreateTicketThenPersist? <==> BranchOf(str) != Up && IsResolved(lifecycle)
    ensures e.PersistStatus? ==> e.ticketId == tid && BranchOf(e.status) == BranchOf(str)
    ensures e.PersistStatus? ==> IsSliderStatus(e.status)
    ensures e.CreateTicketThenPersist? ==> e.status == str
    ensures e.RevertDisplay? ==> e.status == cstatus
  {
    match BranchOf(str)
    case Up =>
      if IsResolved(lifecycle) then PersistStatus(StatusName(Up), tid) else RevertDisplay(cstatus)
    case Down =>
      if IsResolved(lifecycle) then CreateTicketThenPersist(str) else PersistStatus(StatusName(Down), tid)
    case Issues =>
      if IsResolved(lifecycle) then CreateTicketThenPersist(str) else PersistStatus(StatusName(Issues), tid)
  }

  /** The ticket id and lifecycle the handler goes on with
      (sst-doc.js:609-616). */
  datatype TicketView = TicketView(tid: Option<string>, lifecycle: string)

  function ObserveTicket(idReply: Option<string>, lifecycleReply: Option<string>): (v: TicketView)
    ensures v.tid == idReply
    ensures idReply.Some? && lifecycleReply.Some? ==> v.lifecycle == lifecycleReply.value
    ensures idReply.None? || lifecycleReply.None? ==> IsResolved(v.lifecycle)
  {
    match idReply
    case None => TicketView(None, "Closed")
    case Some(tid) =>
      match lifecycleReply
      case None => TicketView(Some(tid), "Closed")
      case Some(lifecycle) => TicketView(Some(tid), lifecycle)
  }

  // ---------------------------------------------------------------------
  // The calls

  /** The body of the ticket-creation request (sst-doc.js:227). */
  datatype TicketRequest = TicketRequest(title: string, description: string, requester: string,
                                         kind: string, item: string, whid: string)

  /** The body of the station write (sst-doc.js:190). */
  datatype StationUpdate = StationUpdate(lineId: string, stationId: string, status: string,
                                         ticketId: Option<string>)

  datatype Call = CreateTicket(request: TicketRequest) | UpdateStation(update: StationUpdate)

  /** How a click ends: a status written, the slider moved back to the input
      of the persisted status `shown`, or an exception before any write. */
  datatype Outcome = Persisted | Reverted(shown: string) | Aborted

  datatype ClickResult = ClickResult(calls: seq<Call>, outcome: Outcome)

  /** The station whose label was clicked: the page's selected warehouse and
      department, the line and station ids the slider was built for, and the
      station's display text. */
  datatype Station = Station(whid: string, dept: string, line: string, stid: string, text: string)

  /** The station key the click handler builds (sst-doc.js:605). */
  function StationKeyOf(st: Station): string {
    StationKey(st.whid, st.dept, st.line, st.stid)
  }

  /** The replies to the handler's reads; `None` is a call that threw. */
  datatype Replies = Replies(stationStatus: Option<string>, ticketId: Option<string>,
                             lifecycle: Option<string>, created: Option<string>)

  function CountCreates(calls: seq<Call>): nat {
    if |calls| == 0 then 0
    else (if calls[0].CreateTicket? then 1 else 0) + CountCreates(calls[1..])
  }

  function CountUpdates(calls: seq<Call>): nat {
    if |calls| == 0 then 0
    else (if calls[0].UpdateStation? then 1 else 0) + CountUpdates(calls[1..])
  }

  /** `updateStation(status, tid)` for the station with key `key`. */
  function Update(key: string, status: string, tid: Option<string>): (u: StationUpdate)
    ensures u.stationId == key && u.status == status && u.ticketId == tid
    ensures '-' !in key ==> u.lineId == key
    ensures '-' in key ==> u.lineId + "-" <= key && '-' !in key[|u.lineId| + 1..]
  {
    StationUpdate(LineIdOf(key), key, status, tid)
  }

  // The fixed wording of the ticket (sst-doc.js:215-224).
  const DownHeading: string := "] Operations has reported station down at: "
  const IssuesHeading: string := "] Operations has reported issues at: "
  const DownLead: string := "Station is "
  const DownTail: string := ". Please remediate this issue as soon as possible."
  const IssuesLead: string := "Station has "
  const IssuesTail: string := ", however station is still operable. Please plan to remediate this issue as quickly as possible."

  /** `suffix` ends `s`. */
  predicate EndsWith(s: string, suffix: string) {
    |suffix| <= |s| && s[|s| - |suffix|..] == suffix
  }

  /** The ticket `createIssue` requests for a station reported as `str`
      (sst-doc.js:207-227): the wording says "station down" exactly when
      `str` includes "down", and the title ends with the department and the
      station's text. */
  function NewTicket(st: Station, str: string): (t: TicketRequest)
    ensures t.whid == st.whid && t.requester == "null"
    ensures t.kind == "Client Devices" && t.item == "Peripherals"
    ensures Includes(str, "down") ==> "[" + st.whid + DownHeading <= t.title
    ensures !Includes(str, "down") ==> "[" + st.whid + IssuesHeading <= t.title
    ensures EndsWith(t.title, st.dept + " " + st.text)
  {
    var head := if Includes(str, "down") then DownHeading
                else IssuesHeading;
    var place := st.dept + " " + st.text;
    var title := "[" + st.whid + head + place;
    var description :=
      if Includes(str, "down") then DownLead + str + DownTail
      else IssuesLead + str + IssuesTail;
    TitleFacts("[" + st.whid + head, place);
    TicketRequest(title, description, "null", "Client Devices", "Peripherals", st.whid)
  }

  lemma TitleFacts(lead: string, place: string)
    ensures lead <= lead + place && EndsWith(lead + place, place)
  {
    assert (lead + place)[|lead|..] == place;
  }

  /** The ticket's description quotes the requested status. */
  lemma DescriptionQuotesStatus(st: Station, str: string)
    ensures Includes(NewTicket(st, str).description, str)
  {
    IncludesSplice(DownLead, str, DownTail);
    IncludesSplice(IssuesLead, str, IssuesTail);
  }

  /** What every click promises about its calls: at most one ticket request
      and at most one write, a ticket request before anything else, the
      outcome `Persisted` exactly when a write was made, and every write
      for the clicked station `st`, its key and its line. */
  predicate WellFormedClick(r: ClickResult, st: Station) {
    && CountCreates(r.calls) <= 1 && CountUpdates(r.calls) <= 1
    && (r.outcome == Persisted <==> CountUpdates(r.calls) == 1)
    && (CountCreates(r.calls) == 1 ==> |r.calls| > 0 && r.calls[0].CreateTicket?)
    && (forall i :: 0 <= i < |r.calls| && r.calls[i].UpdateStation? ==>
          r.calls[i].update.stationId == StationKeyOf(st)
          && r.calls[i].update.lineId == LineIdOf(StationKeyOf(st)))
  }

  /** `createIssue` (sst-doc.js:205-232): one ticket-creation request, then,
      if its reply arrived, one write of the requested status `str` with the
      new ticket id. A failed request leaves `fetchData` returning null, and
      reading its body throws before the write. */
  function CreateIssue(st: Station, str: string, created: Option<string>): (r: ClickResult)
    ensures |r.calls| >= 1 && r.calls[0] == CreateTicket(NewTicket(st, str))
    ensures created.None? ==> r == ClickResult([CreateTicket(NewTicket(st, str))], Aborted)
    ensures created.Some? ==> r.outcome == Persisted && |r.calls| == 2
                              && r.calls[1] == UpdateStation(Update(StationKeyOf(st), str, created))
    ensures CountCreates(r.calls) == 1
    ensures CountUpdates(r.calls) == if created.Some? then 1 else 0
    ensures WellFormedClick(r, st)
  {
    var create := CreateTicket(NewTicket(st, str));
    match created
    case None =>
      assert [create][1..] == [];
      ClickResult([create], Aborted)
    case Some(_) =>
      var update := UpdateStation(Update(StationKeyOf(st), str, created));
      assert [create, update][1..] == [update] && [update][1..] == [];
      assert CountCreates([update]) == 0 && CountUpdates([update]) == 1;
      ClickResult([create, update], Persisted)
  }

  /** Carrying out an effect for station `st`; `created` is the reply to a
      ticket-creation request, should the effect make one. */
  function Perform(e: Effect, st: Station, created: Option<string>): (r: ClickResult)
    ensures WellFormedClick(r, st)
    ensures r.outcome.Reverted? <==> e.RevertDisplay? && IsSliderStatus(ClearWhitespace(e.status))
    ensures r.outcome.Reverted? ==> r.calls == [] && r.outcome.shown == ClearWhitespace(e.status)
  {
    match e
    case PersistStatus(status, tid) => PersistOnly(st, status, tid)
    case RevertDisplay(status) => Revert(status)
    case CreateTicketThenPersist(status) => CreateIssue(st, status, created)
  }

  /** A click whose only call is `updateStation(status, tid)`. */
  function PersistOnly(st: Station, status: string, tid: Option<string>): (r: ClickResult)
    ensures r.outcome == Persisted
    ensures r.calls == [UpdateStation(Update(StationKeyOf(st), status, tid))]
    ensures CountCreates(r.calls) == 0 && CountUpdates(r.calls) == 1
    ensures WellFormedClick(r, st)
  {
    var r := ClickResult([UpdateStation(Update(StationKeyOf(st), status, tid))], Persisted);
    assert r.calls[1..] == [];
    r
  }

  /** Moving the slider back to the persisted status `status`
      (sst-doc.js:626-632). The selectors find this slider's elements only
      for a slider status; for any other status the note lookup yields null
      and reading its style throws. */
  function Revert(status: string): (r: ClickResult)
    ensures r.calls == []
    ensures r.outcome.Reverted? <==> IsSliderStatus(ClearWhitespace(status))
    ensures r.outcome.Reverted? ==> r.outcome.shown == ClearWhitespace(status)
    ensures !r.outcome.Reverted? ==> r.outcome == Aborted
  {
    var shown := ClearWhitespace(status);
    if IsSliderStatus(shown) then ClickResult([], Reverted(shown)) else ClickResult([], Aborted)
  }

  /** The whole click handler. The station-status read (sst-doc.js:608) sits
      outside the `try`, so its failure ends the handler before anything
      else; the ticket reads inside the `try` fall back to "Closed". */
  function HandleClick(str: string, st: Station, replies: Replies): (r: ClickResult)
    ensures replies.stationStatus.None? ==> r == ClickResult([], Aborted)
    ensures WellFormedClick(r, st)
    ensures r.outcome.Reverted? ==> r.calls == [] && IsSliderStatus(r.outcome.shown)
  {
    match replies.stationStatus
    case None => ClickResult([], Aborted)
    case Some(cstatus) =>
      var view := ObserveTicket(replies.ticketId, replies.lifecycle);
      Perform(Decide(str, view.lifecycle, cstatus, view.tid), st, replies.created)
  }

  // ---------------------------------------------------------------------
  // The cases of sst-doc.js:617-672

  /** Marking a station up over a resolved ticket writes "up" with the
      ticket id it has and opens no ticket. */
  lemma UpOverResolvedTicket(str: string, st: Station, replies: Replies)
    requires BranchOf(str) == Up && replies.stationStatus.Some?
    requires IsResolved(ObserveTicket(replies.ticketId, replies.lifecycle).lifecycle)
    ensures HandleClick(str, st, replies)
         == ClickResult([UpdateStation(Update(StationKeyOf(st), "up", replies.ticketId))], Persisted)
  {
  }

  /** Marking a station up while its ticket is open writes nothing. The
      slider moves back to the persisted status when that status, white space
      removed, is one the slider offers; any other value ("Up", or the
      "undefined" of a missing field) makes the lookup throw. */
  lemma UpOverOpenTicket(str: string, st: Station, replies: Replies)
    requires BranchOf(str) == Up && replies.stationStatus.Some?
    requires !IsResolved(ObserveTicket(replies.ticketId, replies.lifecycle).lifecycle)
    ensures var shown := ClearWhitespace(replies.stationStatus.value);
      HandleClick(str, st, replies)
        == ClickResult([], if IsSliderStatus(shown) then Reverted(shown) else Aborted)
  {
  }

  /** Marking a station down or with issues over a resolved ticket opens
      exactly one ticket and then writes the requested status once, with
      the new ticket's id. */
  lemma DegradeOverResolvedTicket(str: string, st: Station, replies: Replies)
    requires BranchOf(str) != Up && replies.stationStatus.Some? && replies.created.Some?
    requires IsResolved(ObserveTicket(replies.ticketId, replies.lifecycle).lifecycle)
    ensures var r := HandleClick(str, st, replies);
      && r == ClickResult([CreateTicket(NewTicket(st, str)),
                           UpdateStation(Update(StationKeyOf(st), str, replies.created))], Persisted)
      && CountCreates(r.calls) == 1 && CountUpdates(r.calls) == 1
  {
  }

  /** Marking a station down or with issues while its ticket is open opens no
      ticket and writes the branch's status with the existing ticket id. */
  lemma DegradeOverOpenTicket(str: string, st: Station, replies: Replies)
    requires BranchOf(str) != Up && replies.stationStatus.Some?
    requires !IsResolved(ObserveTicket(replies.ticketId, replies.lifecycle).lifecycle)
    ensures var r := HandleClick(str, st, replies);
      && r == ClickResult([UpdateStation(Update(StationKeyOf(st), StatusName(BranchOf(str)), replies.ticketId))], Persisted)
      && CountCreates(r.calls) == 0
  {
  }

  /** A ticket lookup that throws reads as a closed ticket: the click goes
      exactly as it would with lifecycle "Closed". */
  lemma FailedLookupReadsClosed(str: string, st: Station, replies: Replies)
    requires replies.ticketId.None? || replies.lifecycle.None?
    ensures HandleClick(str, st, replies) == HandleClick(str, st, replies.(lifecycle := Some("Closed")))
  {
  }

  /** A ticket-creation request that fails ends the click with no status written. */
  lemma FailedCreateWritesNothing(str: string, st: Station, replies: Replies)
    requires BranchOf(str) != Up && replies.stationStatus.Some? && replies.created.None?
    requires IsResolved(ObserveTicket(replies.ticketId, replies.lifecycle).lifecycle)
    ensures var r := HandleClick(str, st, replies);
      r.outcome == Aborted && CountUpdates(r.calls) == 0 && CountCreates(r.calls) == 1
  {
  }

  /** The three statuses a slider offers each select their own branch. */
  lemma SliderStatusesSelectTheirBranch()
    ensures BranchOf("up") == Up && BranchOf("down") == Down && BranchOf("issues") == Issues
  {
    assert StatusName(Up) == "up" && StatusName(Down) == "down" && StatusName(Issues) == "issues";
  }

  /** The branch test in terms of where "up" and "down" occur: a label
      containing "up" anywhere is the "up" branch, one containing "down" but
      not "up" is the "down" branch, and every other label is "issues". */
  lemma BranchOfOccurs(str: string)
    ensures BranchOf(str) == Up <==> exists i: nat :: OccursAt(str, "up", i)
    ensures BranchOf(str) == Down <==>
      (!exists i: nat :: OccursAt(str, "up", i)) && exists i: nat :: OccursAt(str, "down", i)
  {
    IncludesIffOccurs(str, "up");
    IncludesIffOccurs(str, "down");
  }

  /** The lifecycle comparison is exact: other spellings of a closed
      ticket count as open. */
  lemma ResolvedIsExact()
    ensures IsResolved("Closed") && IsResolved("Resolved")
    ensures !IsResolved("closed") && !IsResolved("resolved") && !IsResolved("Closed ")
  {
  }

  /** With a '-'-free station id every write names the station's own line. */
  lemma WritesNameTheLine(str: string, st: Station, replies: Replies)
    requires '-' !in st.stid
    ensures var calls := HandleClick(str, st, replies).calls;
      forall i :: 0 <= i < |calls| && calls[i].UpdateStation? ==>
        calls[i].update.lineId == st.whid + "-" + st.dept + "-" + st.line
  {
    LineIdOfStationKey(st.whid, st.dept, st.line, st.stid);
  }
}
