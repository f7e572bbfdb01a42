/**
 * The worklist of the helper thread (src/loader_helper.cpp): a notification about a modified file
 * schedules it for loading one second later, and a further notification postpones it.
 */
module Debounce {

  /** One second in nanoseconds. */
  const SECOND := 1_000_000_000

  /** A file to be loaded at some time. Its number is its own, whatever its position in the loader's list. */
  datatype Entry = Entry(due: nat, file: nat)

  /** A notification: the watch it is about, and whether it reports a queue overflow or a removed watch. */
  datatype Event = Event(wd: int, overflow: bool, ignored: bool)

  const NO_WATCH := -1

  /** The times at which files are due. */
  type Schedule = map<nat, nat>

  ghost predicate Unique(load: set<Entry>) {
    forall a, b :: a in load && b in load && a.file == b.file ==> a == b
  }

  function Files(load: set<Entry>): (r: set<nat>) {
    set e | e in load :: e.file
  }

  ghost function DueOf(load: set<Entry>, f: nat): (due: nat)
    requires f in Files(load)
    ensures Entry(due, f) in load
  {
    var e :| e in load && e.file == f;
    e.due
  }

  ghost function Pending(load: set<Entry>): (r: Schedule)
    requires Unique(load)
  {
    map f | f in Files(load) :: DueOf(load, f)
  }

  // ---------------------------------------------------------------------------
  // Whole runs

  /** What the helper thread does: it takes in notifications about some files, or loads what is due. */
  datatype Step = Detect(now: nat, files: set<nat>) | Load(now: nat)

  function Notified(p: Schedule, files: set<nat>, now: nat): (r: Schedule) {
    p + map f | f in files :: now + SECOND
  }

  function Remaining(p: Schedule, now: nat): (r: Schedule) {
    map f | f in p && p[f] > now :: p[f]
  }

  function Apply(p: Schedule, s: Step): (r: Schedule) {
    match s
    case Detect(now, files) => Notified(p, files, now)
    case Load(now) => Remaining(p, now)
  }

  function Run(steps: seq<Step>): (r: Schedule) {
    if steps == [] then map[] else Apply(Run(steps[..|steps| - 1]), steps[|steps| - 1])
  }

  ghost predicate Notifies(s: Step, f: nat) {
    s.Detect? && f in s.files
  }

  /** Step `k` is the latest notification about the file in the first `n` steps. */
  ghost predicate Latest(steps: seq<Step>, n: int, f: nat, k: int) {
    && 0 <= k < n <= |steps| && Notifies(steps[k], f)
    && (forall j :: k < j < n ==> !Notifies(steps[j], f))
  }

  /** Nothing between the notification and step `n` loaded the file. */
  ghost predicate Waiting(steps: seq<Step>, n: int, k: int)
    requires 0 <= k < n <= |steps|
  {
    forall j :: k < j < n && steps[j].Load? ==> steps[j].now < steps[k].now + SECOND
  }

  /** A file is pending exactly when its latest notification has not been served, and then it is due
      one second after that notification. */
  lemma {:induction false} PendingIff(steps: seq<Step>, f: nat)
    ensures f in Run(steps) <==> exists k :: Latest(steps, |steps|, f, k) && Waiting(steps, |steps|, k)
    ensures forall k :: Latest(steps, |steps|, f, k) && Waiting(steps, |steps|, k) ==> Run(steps)[f] == steps[k].now + SECOND
  {
    if steps != [] {
      var n := |steps| - 1;
      var before, s := steps[..n], steps[n];
      PendingIff(before, f);
      if Notifies(s, f) {
        assert Latest(steps, n + 1, f, n) && Waiting(steps, n + 1, n);
      } else {
        forall k ensures Latest(steps, n + 1, f, k) <==> Latest(before, n, f, k) {
          LatestBefore(steps, f, k);
        }
        forall k | Latest(before, n, f, k)
          ensures Waiting(steps, n + 1, k) <==> Waiting(before, n, k) && (s.Load? ==> s.now < before[k].now + SECOND)
        {
          WaitingBefore(steps, k);
        }
        if f in Run(before) {
          var k :| Latest(before, n, f, k) && Waiting(before, n, k);
          assert Run(before)[f] == before[k].now + SECOND;
        }
      }
    }
  }

  lemma LatestBefore(steps: seq<Step>, f: nat, k: int)
    requires steps != [] && !Notifies(steps[|steps| - 1], f)
    ensures var n := |steps| - 1; Latest(steps, n + 1, f, k) <==> Latest(steps[..n], n, f, k)
  {
    var n := |steps| - 1;
    assert forall j :: 0 <= j < n ==> steps[..n][j] == steps[j];
    if Latest(steps, n + 1, f, k) {
      assert k != n;
    }
  }

  lemma WaitingBefore(steps: seq<Step>, k: int)
    requires 0 <= k < |steps| - 1
    ensures var n := |steps| - 1;
            Waiting(steps, n + 1, k) <==> Waiting(steps[..n], n, k) && (steps[n].Load? ==> steps[n].now < steps[..n][k].now + SECOND)
  {
    var n := |steps| - 1;
    assert forall j :: 0 <= j < n ==> steps[..n][j] == steps[j];
  }

  /** A load step loads exactly the files whose latest notification is at least a second old and was not
      served before: never a file in the second after its latest notification, and once per burst. */
  lemma LoadedIff(steps: seq<Step>, f: nat)
    requires steps != [] && steps[|steps| - 1].Load?
    ensures var n := |steps| - 1;
            f in Run(steps[..n]) && f !in Run(steps) <==>
              exists k :: Latest(steps, n, f, k) && Waiting(steps, n, k) && steps[k].now + SECOND <= steps[n].now
  {
    var n := |steps| - 1;
    var before := steps[..n];
    PendingIff(before, f);
    forall k ensures Latest(before, n, f, k) <==> Latest(steps, n, f, k) {
      assert forall j :: 0 <= j < n ==> before[j] == steps[j];
    }
    forall k | Latest(before, n, f, k) ensures Waiting(before, n, k) <==> Waiting(steps, n, k) {
      assert forall j :: 0 <= j < n ==> before[j] == steps[j];
    }
  }

  // ---------------------------------------------------------------------------
  // The worklist

  /** The files that a notification is about. */
  function Watching(wds: seq<int>, wd: int): (r: set<nat>) {
    set f | 0 <= f < |wds| && wds[f] == wd
  }

  /** Replacing the entry of a file, or adding one, schedules the file. */
  lemma Rescheduled(load: set<Entry>, f: nat, due: nat)
    requires Unique(load)
    ensures var load' := (set e | e in load && e.file != f) + {Entry(due, f)};
            Unique(load') && Pending(load') == Pending(load)[f := due]
  {
    var load' := (set e | e in load && e.file != f) + {Entry(due, f)};
    assert Entry(due, f) in load';
    forall g | g in Files(load) && g != f ensures g in Files(load') && DueOf(load', g) == DueOf(load, g) {
      assert Entry(DueOf(load, g), g) in load';
    }
    assert DueOf(load', f) == due;
  }

  /** One more file. */
  lemma NotifiedNext(p: Schedule, files: set<nat>, f: nat, now: nat)
    ensures Notified(p, files, now)[f := now + SECOND] == Notified(p, files + {f}, now)
  {
  }

  lemma NotifiedTwice(p: Schedule, a: set<nat>, b: set<nat>, now: nat)
    ensures Notified(Notified(p, a, now), b, now) == Notified(p, a + b, now)
  {
  }

  /** Entries for all files, whatever is there already. */
  function WithAll(load: set<Entry>, files: nat, now: nat): (r: set<Entry>) {
    if files == 0 then load else WithAll(load, files - 1, now) + {Entry(now + SECOND, files - 1)}
  }

  lemma {:induction false} InWithAll(load: set<Entry>, files: nat, now: nat, e: Entry)
    ensures e in WithAll(load, files, now) <==> e in load || (e.due == now + SECOND && e.file < files)
  {
    if files > 0 {
      InWithAll(load, files - 1, now, e);
    }
  }

  /** The branch for queue overflows keeps one entry per file if and only if nothing was scheduled for another time. */
  lemma WithAllUniqueIff(load: set<Entry>, files: nat, now: nat)
    requires Unique(load)
    ensures Unique(WithAll(load, files, now)) <==> forall e :: e in load && e.file < files ==> e.due == now + SECOND
  {
    var all := WithAll(load, files, now);
    forall e ensures e in all <==> e in load || (e.due == now + SECOND && e.file < files) {
      InWithAll(load, files, now, e);
    }
    if Unique(all) {
      forall e | e in load && e.file < files ensures e.due == now + SECOND {
        assert Entry(now + SECOND, e.file) in all && e in all;
      }
    }
  }

  class Worklist {
    var load: set<Entry>
    var wds: seq<int>

    constructor (wds: seq<int>)
      ensures Valid() && Pending(load) == Run([]) && this.wds == wds
    {
      load, this.wds := {}, wds;
    }

    ghost predicate Valid()
      reads this
    {
      Unique(load)
    }

    /** Schedules a file, postponing it when it is scheduled already. */
    method Schedule(f: nat, now: nat)
      requires Valid()
      modifies this`load
      ensures Valid() && Pending(load) == old(Pending(load))[f := now + SECOND]
    {
      Rescheduled(load, f, now + SECOND);
      if e :| e in load && e.file == f {
        assert (set x | x in load && x.file != f) == load - {e};
        if e.due != now + SECOND {
          load := load - {e} + {Entry(now + SECOND, f)};
        } else {
          assert load - {e} + {Entry(now + SECOND, f)} == load;
        }
      } else {
        assert (set x | x in load && x.file != f) == load;
        load := load + {Entry(now + SECOND, f)};
      }
    }

    /** Handles one notification. A queue overflow is meant to schedule all files, but the kernel reports it
        without a watch, so that it schedules nothing; a removed watch is set up again, with whatever number the
        kernel gives it. */
    method Handle(e: Event, now: nat)
      requires Valid()
      modifies this
      ensures |wds| == |old(wds)|
      ensures e.wd == NO_WATCH || (e.ignored && !e.overflow) ==> load == old(load)
      ensures e.wd == NO_WATCH || e.overflow || !e.ignored ==> wds == old(wds)
      ensures forall f :: 0 <= f < |wds| && old(wds)[f] != e.wd ==> wds[f] == old(wds)[f]
      ensures e.wd != NO_WATCH && !e.ignored && !e.overflow ==>
                Valid() && Pending(load) == Notified(old(Pending(load)), Watching(wds, e.wd), now)
      ensures e.wd != NO_WATCH && e.overflow ==> load == WithAll(old(load), |wds|, now)
    {
      var checkAll := e.overflow;
      if e.wd != NO_WATCH {
        ghost var files: set<nat> := {};
        for f := 0 to |wds|
          invariant |wds| == |old(wds)| && forall g :: 0 <= g < |wds| && (g >= f || old(wds)[g] != e.wd) ==> wds[g] == old(wds)[g]
          invariant checkAll ==> wds == old(wds) && load == WithAll(old(load), f, now)
          invariant !checkAll ==> Valid()
          invariant !checkAll && e.ignored ==> load == old(load)
          invariant !checkAll && !e.ignored ==> wds == old(wds) && files == (set g | 0 <= g < f && wds[g] == e.wd)
          invariant !checkAll && !e.ignored ==> Pending(load) == Notified(old(Pending(load)), files, now)
        {
          if checkAll {
            load := load + {Entry(now + SECOND, f)};
          } else if wds[f] == e.wd {
            if e.ignored {
              var wd: int := *;
              wds := wds[f := wd];
            } else {
              NotifiedNext(old(Pending(load)), files, f, now);
              Schedule(f, now);
              files := files + {f};
            }
          }
        }
      }
    }

    /** Takes in the notifications read at one time. `history` tells the watches of the files before each
        notification and after the last: a removed watch changes them on the way. */
    method Detect(now: nat, events: seq<Event>) returns (ghost files: set<nat>, ghost history: seq<seq<int>>)
      requires Valid() && forall i :: 0 <= i < |events| && events[i].overflow ==> events[i].wd == NO_WATCH
      modifies this
      ensures Valid() && Pending(load) == Notified(old(Pending(load)), files, now)
      ensures History(history, old(wds), events, wds)
      ensures forall f :: f in files <==> Reported(history, events, |events|, f)
    {
      files, history := {}, [wds];
      for i := 0 to |events|
        invariant Valid() && Pending(load) == Notified(old(Pending(load)), files, now)
        invariant History(history, old(wds), events[..i], wds)
        invariant forall f :: f in files <==> Reported(history, events, i, f)
      {
        var e := events[i];
        ghost var before, known := wds, files;
        Handle(e, now);
        if e.wd != NO_WATCH && !e.ignored {
          NotifiedTwice(old(Pending(load)), files, Watching(wds, e.wd), now);
          files := files + Watching(wds, e.wd);
        }
        HistoryGrows(history, old(wds), events, i, before, wds);
        forall f ensures Reported(history + [wds], events, i + 1, f) <==> Reported(history, events, i, f) || Concerns(before, e, f) {
          ReportedNext(history, wds, events, i, f);
        }
        history := history + [wds];
      }
      assert events[..|events|] == events;
    }

    /** Loads what is due, earliest first. */
    method LoadDue(now: nat) returns (loaded: seq<Entry>)
      requires Valid()
      modifies this`load
      ensures Valid() && Pending(load) == Remaining(old(Pending(load)), now)
      ensures forall e :: e in loaded <==> e in old(load) && e.due <= now
      ensures forall i, j :: 0 <= i < j < |loaded| ==> loaded[i].due <= loaded[j].due && loaded[i].file != loaded[j].file
    {
      loaded := [];
      while load != {}
        invariant load <= old(load) && forall e :: e in old(load) ==> e in load || (e in loaded && e.due <= now)
        invariant forall e :: e in loaded ==> e in old(load) && e !in load && e.due <= now
        invariant forall e, d :: e in loaded && d in load ==> e.due <= d.due
        invariant forall i, j :: 0 <= i < j < |loaded| ==> loaded[i].due <= loaded[j].due && loaded[i].file != loaded[j].file
        decreases load
      {
        var e := Lowest(load);
        if e.due > now {
          break;
        }
        loaded := loaded + [e];
        load := load - {e};
      }
      DueRemoved(old(load), load, now);
    }
  }

  /** The entry with the least time. */
  method Lowest(load: set<Entry>) returns (r: Entry)
    requires load != {}
    ensures r in load && forall e :: e in load ==> r.due <= e.due
  {
    r :| r in load;
    var todo := load - {r};
    while todo != {}
      invariant todo <= load && r in load && forall e :: e in load && e !in todo ==> r.due <= e.due
      decreases todo
    {
      var e :| e in todo;
      if e.due < r.due {
        r := e;
      }
      todo := todo - {e};
    }
  }

  lemma DueRemoved(load: set<Entry>, left: set<Entry>, now: nat)
    requires Unique(load) && left <= load
    requires forall e :: e in load ==> (e in left <==> e.due > now)
    ensures Unique(left) && Pending(left) == Remaining(Pending(load), now)
  {
    forall f | f in Remaining(Pending(load), now) ensures f in Pending(left) {
      var e :| e in load && e.file == f;
      assert e in left;
    }
  }

  /** The notification is about the file, by its watch at that time. */
  predicate Concerns(wds: seq<int>, e: Event, f: nat) {
    e.wd != NO_WATCH && !e.ignored && f < |wds| && wds[f] == e.wd
  }

  /** One of the first `n` notifications is about the file. */
  ghost predicate Reported(history: seq<seq<int>>, events: seq<Event>, n: nat, f: nat)
    requires n <= |events| && n < |history|
  {
    exists i :: 0 <= i < n && Concerns(history[i], events[i], f)
  }

  /** The watches before each notification and after the last: only the removal of a watch changes some, and only
      those that had it. */
  ghost predicate History(history: seq<seq<int>>, first: seq<int>, events: seq<Event>, last: seq<int>) {
    && |history| == |events| + 1 && history[0] == first && history[|events|] == last
    && (forall i :: 0 <= i < |events| ==> Rewatched(history[i], events[i], history[i + 1]))
  }

  ghost predicate Rewatched(before: seq<int>, e: Event, after: seq<int>) {
    && |after| == |before|
    && (e.wd == NO_WATCH || !e.ignored ==> after == before)
    && (forall f :: 0 <= f < |before| && before[f] != e.wd ==> after[f] == before[f])
  }

  lemma HistoryGrows(history: seq<seq<int>>, first: seq<int>, events: seq<Event>, i: nat, before: seq<int>, after: seq<int>)
    requires i < |events| && History(history, first, events[..i], before) && Rewatched(before, events[i], after)
    ensures History(history + [after], first, events[..i + 1], after)
  {
    var longer := history + [after];
    forall j | 0 <= j < i + 1 ensures Rewatched(longer[j], events[..i + 1][j], longer[j + 1]) {
      if j < i {
        assert Rewatched(history[j], events[..i][j], history[j + 1]);
      }
    }
  }

  lemma ReportedNext(history: seq<seq<int>>, after: seq<int>, events: seq<Event>, i: nat, f: nat)
    requires i < |events| && |history| == i + 1
    ensures Reported(history + [after], events, i + 1, f) <==> Reported(history, events, i, f) || Concerns(history[i], events[i], f)
  {
    var longer := history + [after];
    if Reported(history, events, i, f) {
      var k :| 0 <= k < i && Concerns(history[k], events[k], f);
      assert Concerns(longer[k], events[k], f);
    }
    if Concerns(history[i], events[i], f) {
      assert Concerns(longer[i], events[i], f);
    }
    if Reported(longer, events, i + 1, f) {
      var k :| 0 <= k < i + 1 && Concerns(longer[k], events[k], f);
      assert Concerns(history[k], events[k], f);
    }
  }
}
