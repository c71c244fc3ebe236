/**
 * The achievement tracker: a list of definitions, the set of unlocked ids
 * and a progress counter per id.  `report_event` walks the definitions in
 * order; a score event is compared directly against its threshold, every
 * other event accumulates into the progress counter.  The console
 * notification is kept as the sequence of ids announced so far; the file
 * save is not modelled.
 */
module Achievements {
  import opened Tiles

  datatype Definition = Definition(id: string, event: string, threshold: int)

  /** The event whose value is compared directly instead of accumulated. */
  const ScoreEvent: string := "score_update"

  /** The three built-in achievements. */
  function Definitions(): (defs: seq<Definition>)
    ensures UniqueIds(defs) && |defs| == 3
  {
    [ Definition("first_row", "row_cleared", 1),
      Definition("merge_2048", "tile_merged", 2048),
      Definition("score_1000", ScoreEvent, 1000) ]
  }

  predicate UniqueIds(defs: seq<Definition>) {
    forall i, j | 0 <= i < j < |defs| :: defs[i].id != defs[j].id
  }

  /** Tracker state: unlocked ids, progress counters, and the ids announced in order. */
  datatype Tracker = Tracker(unlocked: set<string>, progress: map<string, int>, notified: seq<string>)

  /** The tracker of a new session: nothing counted, nothing announced. */
  function Fresh(initiallyUnlocked: set<string>): Tracker {
    Tracker(initiallyUnlocked, map[], [])
  }

  /** `_unlock`: the id joins the unlocked set and is announced. */
  function Grant(tr: Tracker, a: Definition): Tracker {
    Tracker(tr.unlocked + {a.id}, tr.progress, tr.notified + [a.id])
  }

  /** One iteration of the loop of `report_event`, for definition `a`. */
  function Visit(tr: Tracker, a: Definition, event: string, value: int): Tracker {
    if a.id in tr.unlocked || a.event != event then tr
    else if event == ScoreEvent then
      if value >= a.threshold then Grant(tr, a) else tr
    else
      var total := (if a.id in tr.progress then tr.progress[a.id] else 0) + value;
      var counted := Tracker(tr.unlocked, tr.progress[a.id := total], tr.notified);
      if total >= a.threshold then Grant(counted, a) else counted
  }

  /** The loop of `report_event` after its first `n` definitions. */
  function ReportUpTo(tr: Tracker, defs: seq<Definition>, event: string, value: int, n: nat): Tracker
    requires n <= |defs|
  {
    if n == 0 then tr else Visit(ReportUpTo(tr, defs, event, value, n - 1), defs[n - 1], event, value)
  }

  /** `report_event(event, value)`. */
  function Report(tr: Tracker, defs: seq<Definition>, event: string, value: int): Tracker {
    ReportUpTo(tr, defs, event, value, |defs|)
  }

  /** A sequence of reports, in order. */
  function ReportAll(tr: Tracker, defs: seq<Definition>, events: seq<(string, int)>): Tracker
    decreases |events|
  {
    if events == [] then tr
    else ReportAll(Report(tr, defs, events[0].0, events[0].1), defs, events[1..])
  }

  /** The progress counter of `id`, if one was ever created. */
  function ProgressOf(tr: Tracker, id: string): Option<int> {
    if id in tr.progress then Some(tr.progress[id]) else None
  }

  /** Two trackers agree on everything recorded about `id`. */
  predicate SameAt(t1: Tracker, t2: Tracker, id: string) {
    (id in t1.unlocked <==> id in t2.unlocked) && ProgressOf(t1, id) == ProgressOf(t2, id)
  }

  // ------------------------------------------------------------ one step

  lemma {:induction false} VisitOther(tr: Tracker, a: Definition, event: string, value: int, id: string)
    requires a.id != id
    ensures SameAt(Visit(tr, a, event, value), tr, id)
  {
  }

  /** What a visit does to its own id depends only on what was recorded about that id. */
  lemma {:induction false} VisitLocal(t1: Tracker, t2: Tracker, a: Definition, event: string, value: int)
    requires SameAt(t1, t2, a.id)
    ensures SameAt(Visit(t1, a, event, value), Visit(t2, a, event, value), a.id)
  {
    assert ProgressOf(t1, a.id) == ProgressOf(t2, a.id);
  }

  lemma {:induction false} ReportOthers(tr: Tracker, defs: seq<Definition>, event: string, value: int, id: string, lo: nat, hi: nat)
    requires lo <= hi <= |defs|
    requires forall j | lo <= j < hi :: defs[j].id != id
    ensures SameAt(ReportUpTo(tr, defs, event, value, hi), ReportUpTo(tr, defs, event, value, lo), id)
  {
    var n := lo;
    while n < hi
      invariant lo <= n <= hi
      invariant SameAt(ReportUpTo(tr, defs, event, value, n), ReportUpTo(tr, defs, event, value, lo), id)
    {
      VisitOther(ReportUpTo(tr, defs, event, value, n), defs[n], event, value, id);
      n := n + 1;
    }
  }

  /**
   * With distinct ids, the whole report does to `defs[i].id` exactly what
   * visiting `defs[i]` alone does.
   */
  lemma {:induction false} ReportAt(tr: Tracker, defs: seq<Definition>, event: string, value: int, i: nat)
    requires UniqueIds(defs) && i < |defs|
    ensures SameAt(Report(tr, defs, event, value), Visit(tr, defs[i], event, value), defs[i].id)
  {
    var id := defs[i].id;
    ReportOthers(tr, defs, event, value, id, 0, i);
    VisitLocal(ReportUpTo(tr, defs, event, value, i), tr, defs[i], event, value);
    ReportOthers(tr, defs, event, value, id, i + 1, |defs|);
  }

  // ------------------------------------------------------- the properties

  /** An achievement already unlocked, or listening to another event, is left as it was. */
  lemma {:induction false} ReportSkips(tr: Tracker, defs: seq<Definition>, event: string, value: int, i: nat)
    requires UniqueIds(defs) && i < |defs|
    requires defs[i].id in tr.unlocked || defs[i].event != event
    ensures SameAt(Report(tr, defs, event, value), tr, defs[i].id)
  {
    ReportAt(tr, defs, event, value, i);
  }

  /** A score event unlocks a locked score achievement iff the value reaches the threshold. */
  lemma {:induction false} ReportScore(tr: Tracker, defs: seq<Definition>, value: int, i: nat)
    requires UniqueIds(defs) && i < |defs| && defs[i].event == ScoreEvent
    ensures defs[i].id in Report(tr, defs, ScoreEvent, value).unlocked <==>
      defs[i].id in tr.unlocked || value >= defs[i].threshold
  {
    ReportAt(tr, defs, ScoreEvent, value, i);
  }

  /** A score event neither reads nor writes any progress counter. */
  lemma {:induction false} ScoreKeepsProgress(tr: Tracker, defs: seq<Definition>, value: int)
    ensures Report(tr, defs, ScoreEvent, value).progress == tr.progress
  {
    var n := 0;
    while n < |defs|
      invariant n <= |defs|
      invariant ReportUpTo(tr, defs, ScoreEvent, value, n).progress == tr.progress
    {
      n := n + 1;
    }
  }

  /**
   * Any other event adds its value to the counter of a locked achievement
   * that listens to it (a missing counter counting as 0), and the
   * achievement unlocks iff the new total reaches the threshold.
   */
  lemma {:induction false} ReportAccumulates(tr: Tracker, defs: seq<Definition>, event: string, value: int, i: nat)
    requires UniqueIds(defs) && i < |defs|
    requires event != ScoreEvent && defs[i].event == event && defs[i].id !in tr.unlocked
    ensures var r := Report(tr, defs, event, value); var id := defs[i].id;
      var before := if id in tr.progress then tr.progress[id] else 0;
      id in r.progress && r.progress[id] == before + value &&
      (id in r.unlocked <==> before + value >= defs[i].threshold)
  {
    ReportAt(tr, defs, event, value, i);
  }

  /** An event no definition listens to changes nothing. */
  lemma {:induction false} ReportUnknown(tr: Tracker, defs: seq<Definition>, event: string, value: int)
    requires forall j | 0 <= j < |defs| :: defs[j].event != event
    ensures Report(tr, defs, event, value) == tr
  {
    var n := 0;
    while n < |defs|
      invariant n <= |defs| && ReportUpTo(tr, defs, event, value, n) == tr
    {
      n := n + 1;
    }
  }

  /**
   * Unlocked ids are never removed, announcements are only appended, and
   * every id newly unlocked belongs to a definition listening to the event.
   */
  lemma {:induction false} ReportGrows(tr: Tracker, defs: seq<Definition>, event: string, value: int)
    ensures var r := Report(tr, defs, event, value);
      tr.unlocked <= r.unlocked && |tr.notified| <= |r.notified| && r.notified[..|tr.notified|] == tr.notified &&
      forall id | id in r.unlocked && id !in tr.unlocked :: exists j | 0 <= j < |defs| :: defs[j].id == id && defs[j].event == event
  {
    var n := 0;
    while n < |defs|
      invariant n <= |defs|
      invariant var r := ReportUpTo(tr, defs, event, value, n);
        tr.unlocked <= r.unlocked && |tr.notified| <= |r.notified| && r.notified[..|tr.notified|] == tr.notified &&
        forall id | id in r.unlocked && id !in tr.unlocked :: exists j | 0 <= j < n :: defs[j].id == id && defs[j].event == event
    {
      var r := ReportUpTo(tr, defs, event, value, n);
      var r' := Visit(r, defs[n], event, value);
      assert r'.notified[..|tr.notified|] == tr.notified by {
        assert r.notified <= r'.notified;
      }
      forall id | id in r'.unlocked && id !in tr.unlocked
        ensures exists j | 0 <= j < n + 1 :: defs[j].id == id && defs[j].event == event
      {
        if id !in r.unlocked {
          assert defs[n].id == id && defs[n].event == event;
        }
      }
      n := n + 1;
    }
  }

  // ------------------------------------------------------ at most once

  predicate NoRepeats(s: seq<string>) {
    forall i, j | 0 <= i < j < |s| :: s[i] != s[j]
  }

  /**
   * Every announced id is unlocked, was not unlocked at the start of the
   * session, and is announced once.
   */
  predicate Consistent(tr: Tracker, initial: set<string>) {
    initial <= tr.unlocked && NoRepeats(tr.notified) &&
    forall k | 0 <= k < |tr.notified| :: tr.notified[k] in tr.unlocked && tr.notified[k] !in initial
  }

  lemma {:induction false} VisitConsistent(tr: Tracker, a: Definition, event: string, value: int, initial: set<string>)
    requires Consistent(tr, initial)
    ensures Consistent(Visit(tr, a, event, value), initial)
  {
    var r := Visit(tr, a, event, value);
    if r.notified != tr.notified {
      assert a.id !in tr.unlocked && r.notified == tr.notified + [a.id];
      assert forall k | 0 <= k < |tr.notified| :: tr.notified[k] != a.id;
    }
  }

  lemma {:induction false} ReportConsistent(tr: Tracker, defs: seq<Definition>, event: string, value: int, initial: set<string>)
    requires Consistent(tr, initial)
    ensures Consistent(Report(tr, defs, event, value), initial)
  {
    var n := 0;
    while n < |defs|
      invariant n <= |defs| && Consistent(ReportUpTo(tr, defs, event, value, n), initial)
    {
      VisitConsistent(ReportUpTo(tr, defs, event, value, n), defs[n], event, value, initial);
      n := n + 1;
    }
  }

  /**
   * Over any sequence of events in a session, each id is announced (that is,
   * unlocked) at most once, and ids unlocked when the session began never.
   */
  lemma {:induction false} UnlockedAtMostOnce(initial: set<string>, defs: seq<Definition>, events: seq<(string, int)>)
    ensures var r := ReportAll(Fresh(initial), defs, events);
      NoRepeats(r.notified) && forall k | 0 <= k < |r.notified| :: r.notified[k] !in initial
  {
    var tr := Fresh(initial);
    var rest := events;
    while rest != []
      invariant Consistent(tr, initial)
      invariant ReportAll(tr, defs, rest) == ReportAll(Fresh(initial), defs, events)
      decreases |rest|
    {
      ReportConsistent(tr, defs, rest[0].0, rest[0].1, initial);
      tr := Report(tr, defs, rest[0].0, rest[0].1);
      rest := rest[1..];
    }
  }

  // ------------------------------------------------------------ the class

  class AchievementManager {
    const definitions: seq<Definition>
    var unlocked: set<string>
    var progress: map<string, int>
    /** The ids announced by `_notify`, in order. */
    var notified: seq<string>

    function State(): Tracker
      reads this
    {
      Tracker(unlocked, progress, notified)
    }

    /** The manager after loading the saved unlocked ids `initiallyUnlocked`. */
    constructor(initiallyUnlocked: set<string>)
      ensures definitions == Definitions()
      ensures State() == Fresh(initiallyUnlocked)
    {
      definitions := Definitions();
      unlocked := initiallyUnlocked;
      progress := map[];
      notified := [];
    }

    /** `_unlock`. */
    method Unlock(a: Definition)
      modifies this
      ensures State() == Grant(old(State()), a)
    {
      unlocked := unlocked + {a.id};
      notified := notified + [a.id];
    }

    /** `report_event`; the value defaults to 1. */
    method ReportEvent(event: string, value: int := 1)
      modifies this
      ensures State() == Report(old(State()), definitions, event, value)
    {
      for i := 0 to |definitions|
        invariant State() == ReportUpTo(old(State()), definitions, event, value, i)
      {
        var a := definitions[i];
        if a.id in unlocked || a.event != event {
          continue;
        }
        if event == ScoreEvent {
          if value >= a.threshold {
            Unlock(a);
          }
        } else {
          if a.id !in progress {
            progress := progress[a.id := 0];
          }
          progress := progress[a.id := progress[a.id] + value];
          if progress[a.id] >= a.threshold {
            Unlock(a);
          }
        }
      }
    }
  }
}
