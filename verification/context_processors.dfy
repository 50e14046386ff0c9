/** The template context processor (scheduling/context_processors.py): whether
    workers may see the schedule follows the newest scheduling window. */
module ContextProcessors {
  import opened SchedulingModels

  const ALLOW_WORKER_VIEW: string := "allow_worker_view"

  /** `order_by("-created_at").first()`: a window no other window postdates. */
  function LatestIndex(ws: seq<SchedulingWindow>): (i: nat)
    requires |ws| > 0
    ensures i < |ws|
    ensures forall j :: 0 <= j < |ws| ==> ws[j].createdAt <= ws[i].createdAt
  {
    if |ws| == 1 then 0
    else
      var i := LatestIndex(ws[..|ws| - 1]);
      assert forall j :: 0 <= j < |ws| - 1 ==> ws[j] == ws[..|ws| - 1][j];
      if ws[|ws| - 1].createdAt > ws[i].createdAt then |ws| - 1 else i
  }

  /** `worker_view_setting`: nothing for an anonymous visitor; otherwise the
      single key `allow_worker_view`, False when no window exists and else the
      flag of the newest window. */
  function WorkerViewSetting(authenticated: bool, ws: seq<SchedulingWindow>): (r: map<string, bool>)
    ensures !authenticated ==> r == map[]
    ensures authenticated ==> r.Keys == {ALLOW_WORKER_VIEW}
    ensures authenticated && |ws| == 0 ==> !r[ALLOW_WORKER_VIEW]
    ensures authenticated && |ws| > 0 ==>
              exists i :: 0 <= i < |ws| && r[ALLOW_WORKER_VIEW] == ws[i].allowWorkerView
                          && forall j :: 0 <= j < |ws| ==> ws[j].createdAt <= ws[i].createdAt
  {
    if !authenticated then map[]
    else if |ws| == 0 then map[ALLOW_WORKER_VIEW := false]
    else map[ALLOW_WORKER_VIEW := ws[LatestIndex(ws)].allowWorkerView]
  }

  /** When one window is strictly newer than all others, its flag alone
      decides; older windows never matter. */
  lemma NewestWindowDecides(ws: seq<SchedulingWindow>, i: nat)
    requires i < |ws|
    requires forall j :: 0 <= j < |ws| && j != i ==> ws[j].createdAt < ws[i].createdAt
    ensures WorkerViewSetting(true, ws)[ALLOW_WORKER_VIEW] == ws[i].allowWorkerView
  {
    var l := LatestIndex(ws);
    assert ws[i].createdAt <= ws[l].createdAt;
  }

  /** Opening a new window that is newer than every existing one makes its own
      flag the setting, whatever came before. */
  lemma NewWindowTakesOver(ws: seq<SchedulingWindow>, w: SchedulingWindow)
    requires forall j :: 0 <= j < |ws| ==> ws[j].createdAt < w.createdAt
    ensures WorkerViewSetting(true, ws + [w])[ALLOW_WORKER_VIEW] == w.allowWorkerView
  {
    var t := ws + [w];
    assert forall j :: 0 <= j < |ws| ==> t[j] == ws[j];
    NewestWindowDecides(t, |ws|);
  }
}
