/**
 * The page's event handlers that tie navigation to the SCORM session:
 * `updateProgress` (a slide change), `completeCourse` (no element of the
 * page calls it; only HTML written into the markdown can) and
 * `window.onload` (resuming a session from the LMS). Each is
 * a function from the state before to the state after plus the host calls
 * made, in order.
 */
module Tracker {
  import opened Wrappers
  import opened SuspendData
  import opened Navigation
  import opened Completion
  import opened Scorm

  /** The SCORM 1.2 data model elements the page reads and writes (section 3.4 of the Run-Time Environment). */
  const Location := "cmi.core.lesson_location"
  const Status := "cmi.core.lesson_status"
  const SuspendKey := "cmi.suspend_data"
  const ScoreRaw := "cmi.core.score.raw"

  /** `updateProgress(event)`: the navigation state after the event and the host calls made. */
  function UpdateProgress(nav: NavState, session: Session, ev: SlideEvent): (r: (NavState, seq<Call>))
    ensures r.0 == Step(nav, ev)
    ensures !session.initialized ==> r.1 == []
    ensures session.initialized ==> |r.1| == 5 && r.1[4] == Commit
    ensures session.initialized ==> r.1[0] == SetValue(Location, Str(Decimal(ev.index)))
    ensures session.initialized ==> r.1[1] == SetValue(Status, Str("incomplete"))
    ensures session.initialized ==> r.1[2] == SetValue(SuspendKey, Str(Encode(r.0.visited)))
    ensures session.initialized ==> r.1[3] == SetValue(ScoreRaw, Score(Progress(r.0.visited, nav.total)))
  {
    var next := Step(nav, ev);
    var progress := Progress(next.visited, nav.total);
    var location := Set(session, Location, Str(Decimal(ev.index)));
    var status := Set(session, Status, Str("incomplete"));
    var suspend := Set(session, SuspendKey, Str(Encode(next.visited)));
    var score := Set(session, ScoreRaw, Score(progress));
    var calls := location + status + suspend + score + CommitSession(session);
    assert session.initialized ==> calls == [location[0], status[0], suspend[0], score[0], Commit];
    (next, calls)
  }

  /** The last value a trace writes to `name`, if it writes one. */
  function LastWrite(calls: seq<Call>, name: string): (r: Option<Value>)
    ensures r.Some? <==> exists i :: 0 <= i < |calls| && calls[i].SetValue? && calls[i].name == name
    ensures r.Some? ==> exists i :: 0 <= i < |calls| && calls[i] == SetValue(name, r.value)
  {
    if calls == [] then None
    else
      var last := calls[|calls| - 1];
      if last.SetValue? && last.name == name then Some(last.value)
      else
        var r := LastWrite(calls[..|calls| - 1], name);
        assert forall i :: 0 <= i < |calls| - 1 ==> calls[..|calls| - 1][i] == calls[i];
        r
  }

  /** The resume data a slide change leaves with the LMS reads back as the visited list after the change. */
  lemma SuspendDataRoundTrip(nav: NavState, session: Session, ev: SlideEvent)
    requires session.initialized
    ensures Decode(UpdateProgress(nav, session, ev).1[2].value.s) == Some(Step(nav, ev).visited)
  {
    DecodeEncode(Step(nav, ev).visited);
  }

  /** The bookmark a slide change leaves with the LMS reads back as the slide shown. */
  lemma LocationRoundTrip(nav: NavState, session: Session, ev: SlideEvent)
    requires session.initialized
    ensures ParseNat(UpdateProgress(nav, session, ev).1[0].value.s) == Some(ev.index)
  {
    ParseNatDecimal(ev.index);
  }

  /** `completeCourse()`: the host calls made; the session is not changed. */
  function CompleteCourse(session: Session, finishReply: string): (r: seq<Call>)
    ensures !session.initialized ==> r == []
    ensures session.initialized ==> r == [SetValue(Status, Str("completed")), Commit, Finish]
  {
    Set(session, Status, Str("completed")) + CommitSession(session) + FinishSession(session, finishReply).1
  }

  /**
   * Completion is not final: `finish` leaves the session initialized, so a
   * later slide change writes `incomplete` over `completed`.
   */
  lemma CompletionIsOverwritten(nav: NavState, session: Session, finishReply: string, ev: SlideEvent)
    requires session.initialized
    ensures LastWrite(CompleteCourse(session, finishReply), Status) == Some(Str("completed"))
    ensures LastWrite(CompleteCourse(session, finishReply) + UpdateProgress(nav, session, ev).1, Status)
         == Some(Str("incomplete"))
  {
    var done := CompleteCourse(session, finishReply);
    var calls := done + UpdateProgress(nav, session, ev).1;
    LastWriteIs(done, Status, 0, Str("completed"));
    assert |calls| == 8 && calls[4] == SetValue(Status, Str("incomplete"));
    assert calls[5].name == SuspendKey && calls[6].name == ScoreRaw && calls[7] == Commit;
    LastWriteIs(calls, Status, 4, Str("incomplete"));
  }

  /** A write of `v` to `name` that no later call overwrites is the last write. */
  lemma {:induction false} LastWriteIs(calls: seq<Call>, name: string, i: nat, v: Value)
    requires i < |calls| && calls[i] == SetValue(name, v)
    requires forall j :: i < j < |calls| ==> !(calls[j].SetValue? && calls[j].name == name)
    ensures LastWrite(calls, name) == Some(v)
    decreases |calls|
  {
    if i < |calls| - 1 {
      var init := calls[..|calls| - 1];
      assert init[i] == calls[i];
      forall j | i < j < |init|
        ensures !(init[j].SetValue? && init[j].name == name)
      {
        assert init[j] == calls[j];
      }
      LastWriteIs(init, name, i, v);
    }
  }

  /** What `window.onload` leaves behind. */
  datatype Loaded =
    | Loaded(nav: NavState, session: Session, jump: Option<nat>, calls: seq<Call>)
      /** `JSON.parse` threw on the stored resume data: the handler stops. */
    | Crashed(session: Session, calls: seq<Call>)

  /** The visited list restored from the stored resume data; `None` is a parse error. */
  function Restore(saved: string): (r: Option<seq<nat>>)
    ensures saved == "" ==> r == Some([])
    ensures saved != "" ==> r == Decode(saved)
  {
    if saved != "" then Decode(saved) else Some([])
  }

  /** A restored list is empty for empty resume data and otherwise is the list whose encoding was stored. */
  lemma RestoreInverse(saved: string, visited: seq<nat>)
    requires Restore(saved) == Some(visited)
    ensures saved == "" ==> visited == []
    ensures saved != "" ==> Encode(visited) == saved
  {
    if saved != "" {
      EncodeDecode(saved, visited);
    }
  }

  /**
   * `window.onload`: initialize the session; when that succeeds, restore the
   * visited list and bookmark, then write `incomplete` and commit. The
   * replies of the host to each call it is asked are parameters, as is the
   * deck size Reveal.js reports.
   */
  function OnLoad(frames: seq<Option<Api>>, initializeReply: string, suspendReply: string,
                  locationReply: string, total: nat): (r: Loaded)
    requires |frames| >= 1
    ensures r.session == Init(NewSession, frames, initializeReply).0
    ensures !Init(NewSession, frames, initializeReply).1 ==> r == Loaded(NavState([], 0, total), r.session, None, r.calls)
    ensures Init(NewSession, frames, initializeReply).1 ==> (r.Crashed? <==> Restore(suspendReply).None?)
    ensures r.Loaded? ==> r.nav.current == 0 && r.nav.total == total
    ensures r.Loaded? && Init(NewSession, frames, initializeReply).1 ==>
      (suspendReply == "" ==> r.nav.visited == []) && (suspendReply != "" ==> Encode(r.nav.visited) == suspendReply)
    ensures r.Loaded? ==> (r.jump.Some? <==> Init(NewSession, frames, initializeReply).1 && Canonical(locationReply))
    ensures r.Loaded? && r.jump.Some? ==> Decimal(r.jump.value) == locationReply
    ensures !Init(NewSession, frames, initializeReply).1 ==> r.calls == Init(NewSession, frames, initializeReply).2
    ensures r.Crashed? ==> r.calls == Init(NewSession, frames, initializeReply).2 + [GetValue(SuspendKey)]
  {
    var (session, ok, initCalls) := Init(NewSession, frames, initializeReply);
    if !ok then Loaded(NavState([], 0, total), session, None, initCalls)
    else
      var (saved, readSaved) := Get(session, SuspendKey, suspendReply);
      match Restore(saved)
      case None => Crashed(session, initCalls + readSaved)
      case Some(visited) =>
        RestoreInverse(saved, visited);
        var (location, readLocation) := Get(session, Location, locationReply);
        var jump := if location != "" then ParseNat(location) else None;
        var calls := initCalls + readSaved + readLocation
          + Set(session, Status, Str("incomplete")) + CommitSession(session);
        Loaded(NavState(visited, 0, total), session, jump, calls)
  }

  /**
   * Resuming: when the LMS hands back what an earlier slide change stored,
   * the page restores that visited list and jumps to that slide.
   */
  lemma ResumeRestores(frames: seq<Option<Api>>, initializeReply: string, visited: seq<nat>, index: nat, total: nat)
    requires |frames| >= 1
    requires Init(NewSession, frames, initializeReply).1
    ensures var r := OnLoad(frames, initializeReply, Encode(visited), Decimal(index), total);
      r.Loaded? && r.nav.visited == visited && r.jump == Some(index)
  {
    DecodeEncode(visited);
    ParseNatDecimal(index);
  }

  /**
   * A learner's first session: the LMS holds no resume data and no bookmark,
   * so the course starts on an empty visited list at the first slide.
   */
  lemma FirstSession(frames: seq<Option<Api>>, initializeReply: string, total: nat)
    requires |frames| >= 1
    ensures var r := OnLoad(frames, initializeReply, "", "", total);
      r.Loaded? && r.nav == NavState([], 0, total) && r.jump == None
  {
  }

  /** When the session starts, `onload` asks for the resume data, then the bookmark, then writes `incomplete`. */
  lemma OnLoadCalls(frames: seq<Option<Api>>, initializeReply: string, suspendReply: string,
                    locationReply: string, total: nat)
    requires |frames| >= 1
    requires Init(NewSession, frames, initializeReply).1
    requires Restore(suspendReply).Some?
    ensures OnLoad(frames, initializeReply, suspendReply, locationReply, total).calls
         == [Initialize, GetValue(SuspendKey), GetValue(Location), SetValue(Status, Str("incomplete")), Commit]
  {
  }
}
