/**
 * The page's wrapper around the SCORM 1.2 run-time API (section 3.3 of the
 * SCORM 1.2 Run-Time Environment): locating the `API` object in the window
 * hierarchy, and the five calls `init`, `finish`, `setValue`, `getValue` and
 * `commit`. Host calls are recorded in an output trace; the strings the host
 * returns are parameters.
 */
module Scorm {
  import opened Wrappers
  import opened Completion

  /** An LMS-provided `API` object, told apart by an identity. */
  datatype Api = Api(id: nat)

  /** The value passed to `LMSSetValue`: a string, or the progress figure before `toFixed(2)`. */
  datatype Value = Str(s: string) | Score(p: Percent)

  /** A call made on the host `API` object. */
  datatype Call =
    | Initialize
    | Finish
    | GetValue(name: string)
    | SetValue(name: string, value: Value)
    | Commit

  /** The wrapper's fields `api` and `initialized`. */
  datatype Session = Session(api: Option<Api>, initialized: bool)

  const NewSession := Session(None, false)

  /** An initialized wrapper always has an API object to call; the wrapper's methods dereference `api` without a check. */
  predicate Ready(s: Session) {
    s.initialized ==> s.api.Some?
  }

  /** The most parent hops `findAPI` makes before giving up. */
  const MaxHops: nat := 7

  /**
   * The `findAPI` loop from frame `k` of `frames`, the current window first
   * and each later entry the parent of the one before; the last entry is the
   * top window, whose parent is itself.
   */
  function Walk(frames: seq<Option<Api>>, k: nat): (r: Option<Api>)
    requires k < |frames| && k <= MaxHops
    ensures r.Some? <==> exists j :: k <= j < |frames| && j <= MaxHops && frames[j].Some?
    ensures r.Some? ==> exists j :: k <= j < |frames| && j <= MaxHops && frames[j] == r && NoneBefore(frames, k, j)
    decreases |frames| - k
  {
    if frames[k].Some? then
      assert NoneBefore(frames, k, k);
      frames[k]
    else if k + 1 >= |frames| then None
    else if k + 1 > MaxHops then None
    else
      var r := Walk(frames, k + 1);
      assert forall j :: k + 1 <= j <= |frames| && NoneBefore(frames, k + 1, j) ==> NoneBefore(frames, k, j);
      r
  }

  /** No frame in `[lo, hi)` has an API object. */
  predicate NoneBefore(frames: seq<Option<Api>>, lo: nat, hi: nat)
    requires hi <= |frames|
  {
    forall i :: lo <= i < hi ==> frames[i].None?
  }

  /** `scorm.findAPI(window)`: the nearest API object at most `MaxHops` parents up, if any. */
  function FindApi(frames: seq<Option<Api>>): (r: Option<Api>)
    requires |frames| >= 1
    ensures r.Some? <==> exists j :: 0 <= j < |frames| && j <= MaxHops && frames[j].Some?
    ensures r.Some? ==> exists j :: 0 <= j < |frames| && j <= MaxHops && frames[j] == r && NoneBefore(frames, 0, j)
  {
    Walk(frames, 0)
  }

  /** `findAPI` returns an API exactly when one of the first `MaxHops + 1` frames has one, and then the nearest. */
  lemma FindApiNearest(frames: seq<Option<Api>>, j: nat)
    requires j < |frames| && j <= MaxHops && frames[j].Some?
    requires NoneBefore(frames, 0, j)
    ensures FindApi(frames) == frames[j]
  {
    var r := Walk(frames, 0);
    var j' :| 0 <= j' < |frames| && j' <= MaxHops && frames[j'] == r && NoneBefore(frames, 0, j');
  }

  /** An API object eight or more parents up is never found. */
  lemma FindApiBounded(frames: seq<Option<Api>>)
    requires |frames| >= 1
    requires forall j :: 0 <= j < |frames| && j <= MaxHops ==> frames[j].None?
    ensures FindApi(frames) == None
  {
  }

  /** `scorm.init()`: the new session, whether it succeeded, and the host calls made. */
  function Init(s: Session, frames: seq<Option<Api>>, initializeReply: string): (r: (Session, bool, seq<Call>))
    requires |frames| >= 1
    ensures r.0.api == FindApi(frames)
    ensures r.1 <==> FindApi(frames).Some? && initializeReply == "true"
    ensures r.1 ==> r.0.initialized && Ready(r.0)
    ensures !r.1 ==> r.0.initialized == s.initialized
    ensures r.2 == if FindApi(frames).Some? then [Initialize] else []
  {
    var api := FindApi(frames);
    if api.None? then (Session(None, s.initialized), false, [])
    else if initializeReply != "true" then (Session(api, s.initialized), false, [Initialize])
    else (Session(api, true), true, [Initialize])
  }

  /** `scorm.finish()`: whether it reports success, and the host calls made. The session is left as it is. */
  function FinishSession(s: Session, finishReply: string): (r: (bool, seq<Call>))
    ensures !s.initialized ==> r == (true, [])
    ensures s.initialized ==> r == (finishReply == "true", [Finish])
  {
    if s.initialized then
      var result := finishReply;
      if result != "true" then (false, [Finish]) else (true, [Finish])
    else (true, [])
  }

  /** `scorm.setValue(name, value)`: the host calls made. The host's reply is only logged. */
  function Set(s: Session, name: string, value: Value): (r: seq<Call>)
    ensures r == [] <==> !s.initialized
    ensures s.initialized ==> r == [SetValue(name, value)]
  {
    if s.initialized then [SetValue(name, value)] else []
  }

  /** `scorm.getValue(name)`: the value returned and the host calls made. */
  function Get(s: Session, name: string, reply: string): (r: (string, seq<Call>))
    ensures !s.initialized ==> r == ("", [])
    ensures s.initialized ==> r == (reply, [GetValue(name)])
  {
    if s.initialized then (reply, [GetValue(name)]) else ("", [])
  }

  /** `scorm.commit()`: the host calls made. The host's reply is only logged. */
  function CommitSession(s: Session): (r: seq<Call>)
    ensures r == [] <==> !s.initialized
    ensures s.initialized ==> r == [Commit]
  {
    if s.initialized then [Commit] else []
  }

  /** A session that has not been initialized makes no host call whatever is asked of it. */
  lemma UninitializedIsSilent(s: Session, name: string, value: Value, reply: string)
    requires !s.initialized
    ensures Set(s, name, value) == [] && CommitSession(s) == []
    ensures Get(s, name, reply) == ("", []) && FinishSession(s, reply) == (true, [])
  {
  }
}
