/** Dependency-ordered preparation and initialization: ObjectIdentity::prepare and
    initialize (src/object/identity.cpp), called for all files by Loader::relocate and
    Loader::prepare (src/loader.cpp). Dependencies may be cyclic. */
module Dependencies {

  type Id = nat

  datatype Status = Mapped | Preparing | Prepared

  /** The dependencies of each file's current version. */
  type Graph = map<Id, seq<Id>>

  ghost predicate Closed(g: Graph) {
    forall i <- g :: forall d <- g[i] :: d in g
  }

  ghost predicate Path(g: Graph, p: seq<Id>, a: Id, b: Id) {
    && p != [] && p[0] == a && p[|p| - 1] == b
    && forall k :: 0 <= k < |p| - 1 ==> p[k] in g && p[k + 1] in g[p[k]]
  }

  /** b can be reached from a along dependencies. */
  ghost predicate Reaches(g: Graph, a: Id, b: Id) {
    exists p :: Path(g, p, a, b)
  }

  lemma ReachesSelf(g: Graph, a: Id)
    ensures Reaches(g, a, a)
  {
    assert Path(g, [a], a, a);
  }

  lemma ReachesDependency(g: Graph, a: Id, b: Id, d: Id)
    requires Reaches(g, a, b) && b in g && d in g[b]
    ensures Reaches(g, a, d)
  {
    var p :| Path(g, p, a, b);
    assert Path(g, p + [d], a, d);
  }

  ghost function Elements(s: seq<Id>): (r: set<Id>) {
    set i | i in s
  }

  ghost predicate NoDuplicates(s: seq<Id>) {
    forall i, j :: 0 <= i < j < |s| ==> s[i] != s[j]
  }

  /** Each object in the log comes after each of its dependencies that was pending, unless
      that dependency depends back on it. */
  ghost predicate Ordered(g: Graph, done: set<Id>, log: seq<Id>) {
    forall k | 0 <= k < |log| ::
      && log[k] in g
      && forall d <- g[log[k]] :: d in done || d in log[..k] || Reaches(g, d, log[k])
  }

  lemma OrderedNext(g: Graph, done: set<Id>, log: seq<Id>, i: Id)
    requires Ordered(g, done, log) && i in g
    requires forall d <- g[i] :: d in done || d in log || Reaches(g, d, i)
    ensures Ordered(g, done, log + [i])
  {
    forall k | 0 <= k < |log + [i]|
      ensures (log + [i])[k] in g
      ensures forall d <- g[(log + [i])[k]] :: d in done || d in (log + [i])[..k] || Reaches(g, d, (log + [i])[k])
    {
      if k < |log| {
        assert (log + [i])[..k] == log[..k];
      } else {
        assert (log + [i])[..k] == log;
      }
    }
  }

  /** In an ordered log, a dependency that does not depend back comes first. */
  lemma DependencyFirst(g: Graph, done: set<Id>, log: seq<Id>, user: nat, dep: nat)
    requires Ordered(g, done, log) && NoDuplicates(log) && user < |log| && dep < |log|
    requires log[dep] in g[log[user]] && log[dep] !in done && !Reaches(g, log[dep], log[user])
    ensures dep < user
  {
    var k :| 0 <= k < |log[..user]| && log[..user][k] == log[dep];
    assert log[k] == log[dep];
  }

  /** Numbers that fall along every dependency. */
  ghost predicate Falls(g: Graph, rank: map<Id, nat>) {
    rank.Keys == g.Keys && forall i <- g :: forall d <- g[i] :: d in g && rank[d] < rank[i]
  }

  lemma {:induction false} FallsAlongPath(g: Graph, rank: map<Id, nat>, p: seq<Id>, a: Id, b: Id)
    requires Falls(g, rank) && Path(g, p, a, b) && a in g
    ensures b in g && rank[b] <= rank[a]
    decreases |p|
  {
    if |p| > 1 {
      assert p[0] in g && p[1] in g[p[0]];
      FallsAlongPath(g, rank, p[1..], p[1], b);
    }
  }

  /** Without cycles, every dependency in the log comes before what depends on it. */
  lemma AcyclicFirst(g: Graph, rank: map<Id, nat>, done: set<Id>, log: seq<Id>, user: nat, dep: nat)
    requires Falls(g, rank) && Ordered(g, done, log) && NoDuplicates(log) && user < |log| && dep < |log|
    requires log[dep] in g[log[user]] && log[dep] !in done
    ensures dep < user
  {
    if Reaches(g, log[dep], log[user]) {
      var p :| Path(g, p, log[dep], log[user]);
      FallsAlongPath(g, rank, p, log[dep], log[user]);
    }
    DependencyFirst(g, done, log, user, dep);
  }

  ghost function In(m: map<Id, Status>, s: Status): (r: set<Id>) {
    set i | i in m && m[i] == s
  }

  class Identities {
    const graph: Graph
    var status: map<Id, Status>
    var initialized: set<Id>
    /** The objects whose own prepare or initialize routine has run, in order. */
    var prepareLog: seq<Id>
    var initLog: seq<Id>
    /** Which of these routines succeed. */
    const prepareOk: Id -> bool
    const initOk: Id -> bool

    /** All objects are mapped, none is prepared or initialized. */
    constructor (graph: Graph, prepareOk: Id -> bool, initOk: Id -> bool)
      requires Closed(graph)
      ensures Valid() && this.graph == graph && InStatus(Mapped) == graph.Keys && prepareLog == [] && initLog == [] && initialized == {}
    {
      this.graph, this.prepareOk, this.initOk := graph, prepareOk, initOk;
      status := map i | i in graph :: Mapped;
      initialized, prepareLog, initLog := {}, [], [];
    }

    ghost predicate Valid()
      reads this
    {
      Closed(graph) && status.Keys == graph.Keys && initialized <= graph.Keys
    }

    ghost function InStatus(s: Status): (r: set<Id>)
      reads this
    {
      In(status, s)
    }

    /** The log holds exactly what got prepared since `done`, each once and in order. Objects
        that a failed attempt left behind in Preparing are `stuck`. */
    ghost predicate LogKept(done: set<Id>, stuck: set<Id>)
      reads this
    {
      && InStatus(Prepared) == done + Elements(prepareLog)
      && done !! Elements(prepareLog)
      && NoDuplicates(prepareLog)
      && Ordered(graph, done + stuck, prepareLog)
      && (forall i <- prepareLog :: prepareOk(i))
      && stuck <= InStatus(Preparing)
    }

    /** ObjectIdentity::prepare. */
    method Prepare(i: Id, ghost done: set<Id>, ghost stuck: set<Id>) returns (ok: bool)
      requires Valid() && i in graph && LogKept(done, stuck)
      requires forall p <- InStatus(Preparing) - stuck :: Reaches(graph, p, i)
      modifies this`status, this`prepareLog
      ensures Valid() && LogKept(done, stuck)
      ensures ok ==> InStatus(Preparing) == old(InStatus(Preparing)) && i !in InStatus(Mapped)
      ensures InStatus(Mapped) <= old(InStatus(Mapped)) && old(InStatus(Prepared)) <= InStatus(Prepared)
      ensures !ok ==> old(InStatus(Preparing)) < InStatus(Preparing)
      ensures !ok ==> exists j :: j in old(InStatus(Mapped)) && !prepareOk(j)
      decreases InStatus(Mapped)
    {
      match status[i]
      case Mapped =>
        ghost var mapped := InStatus(Mapped);
        ghost var preparing := InStatus(Preparing);
        status := status[i := Preparing];
        assert InStatus(Mapped) == mapped - {i};
        assert InStatus(Preparing) == preparing + {i};
        assert InStatus(Prepared) == old(InStatus(Prepared));
        var deps := graph[i];
        for k := 0 to |deps|
          invariant Valid() && LogKept(done, stuck)
          invariant InStatus(Preparing) == preparing + {i}
          invariant InStatus(Mapped) <= mapped - {i} && old(InStatus(Prepared)) <= InStatus(Prepared)
          invariant forall d <- deps[..k] :: d !in InStatus(Mapped)
        {
          ReachAll(preparing - stuck, i, deps[k]);
          ok := Prepare(deps[k], done, stuck);
          if !ok {
            return;
          }
          assert deps[k] !in InStatus(Mapped);
        }
        assert deps[..|deps|] == deps;
        if !prepareOk(i) {
          return false;
        }
        ghost var before := status;
        status := status[i := Prepared];
        prepareLog := prepareLog + [i];
        Finish(done, stuck, i, before, preparing);
        ok := true;
      case Preparing => ok := true;
      case Prepared => ok := true;
    }

    /** The object enters the log once all its dependencies are prepared or on the stack. */
    lemma Finish(done: set<Id>, stuck: set<Id>, i: Id, before: map<Id, Status>, preparing: set<Id>)
      requires Closed(graph) && before.Keys == graph.Keys && i in graph && i !in preparing && stuck <= preparing
      requires status == before[i := Prepared] && before[i] == Preparing && prepareOk(i)
      requires prepareLog != [] && prepareLog[|prepareLog| - 1] == i
      requires var log := prepareLog[..|prepareLog| - 1];
               && In(before, Prepared) == done + Elements(log)
               && done !! Elements(log) && NoDuplicates(log) && Ordered(graph, done + stuck, log)
               && (forall j <- log :: prepareOk(j))
      requires In(before, Preparing) == preparing + {i}
      requires forall p <- preparing - stuck :: Reaches(graph, p, i)
      requires forall d <- graph[i] :: before[d] != Mapped
      ensures LogKept(done, stuck) && InStatus(Preparing) == preparing
      ensures InStatus(Mapped) == In(before, Mapped)
      ensures InStatus(Prepared) == In(before, Prepared) + {i}
    {
      var log := prepareLog[..|prepareLog| - 1];
      assert prepareLog == log + [i];
      assert i !in done + Elements(log);
      forall d | d in graph[i] ensures d in done + stuck || d in log || Reaches(graph, d, i) {
        ReachesSelf(graph, i);
        assert before[d] == Prepared || d in preparing + {i};
      }
      OrderedNext(graph, done + stuck, log, i);
      assert Elements(prepareLog) == Elements(log) + {i};
    }

    lemma ReachAll(active: set<Id>, i: Id, d: Id)
      requires i in graph && d in graph[i]
      requires forall p <- active :: Reaches(graph, p, i)
      ensures forall p <- active + {i} :: Reaches(graph, p, d)
    {
      ReachesSelf(graph, i);
      forall p | p in active + {i} ensures Reaches(graph, p, d) {
        ReachesDependency(graph, p, i, d);
      }
    }

    /** The prepare loop of Loader::relocate, last loaded file first. It succeeds exactly when
        every pending routine does. Then all pending objects have run; no routine runs twice or out of
        dependency order, also when it fails; but what an earlier failure left in Preparing stays unprepared. */
    method PrepareAll(lookup: seq<Id>) returns (ok: bool)
      requires Valid() && prepareLog == [] && Elements(lookup) == graph.Keys
      modifies this`status, this`prepareLog
      ensures ok <==> forall i <- old(InStatus(Mapped)) :: prepareOk(i)
      ensures ok ==> InStatus(Mapped) == {} && InStatus(Preparing) == old(InStatus(Preparing))
      ensures NoDuplicates(prepareLog) && Elements(prepareLog) <= old(InStatus(Mapped))
      ensures Ordered(graph, old(InStatus(Prepared) + InStatus(Preparing)), prepareLog)
      ensures forall i <- prepareLog :: prepareOk(i)
      ensures ok ==> Elements(prepareLog) == old(InStatus(Mapped))
      ensures ok ==> (InStatus(Prepared) == graph.Keys <==> old(InStatus(Preparing)) == {})
      ensures !ok ==> old(InStatus(Preparing)) < InStatus(Preparing)
    {
      ghost var done := InStatus(Prepared);
      ghost var stuck := InStatus(Preparing);
      var k := |lookup|;
      while k > 0
        invariant 0 <= k <= |lookup|
        invariant Valid() && LogKept(done, stuck) && InStatus(Preparing) == stuck
        invariant InStatus(Mapped) <= old(InStatus(Mapped))
        invariant forall i <- lookup[k..] :: i !in InStatus(Mapped)
      {
        k := k - 1;
        assert lookup[k] in Elements(lookup);
        assert lookup[k..] == [lookup[k]] + lookup[k + 1..];
        ok := Prepare(lookup[k], done, stuck);
        if !ok {
          return;
        }
      }
      assert lookup[0..] == lookup;
      StatusesPartition();
      PartitionOf(old(status));
      ok := true;
    }

    /** The initialization log holds only what was initialized since `done`, each once and in order. */
    ghost predicate InitOrdered(done: set<Id>)
      reads this
    {
      && done + Elements(initLog) <= initialized
      && done !! Elements(initLog)
      && NoDuplicates(initLog)
      && Ordered(graph, done, initLog)
      && forall i <- initLog :: initOk(i)
    }

    /** It holds all of it, apart from the objects whose dependencies are being initialized, which are `active`. */
    ghost predicate InitKept(done: set<Id>, active: set<Id>)
      reads this
    {
      && InitOrdered(done)
      && initialized == done + Elements(initLog) + active
      && active !! done + Elements(initLog)
    }

    /** ObjectIdentity::initialize: the flag is set before the dependencies are visited. */
    method Initialize(i: Id, ghost done: set<Id>, ghost active: set<Id>) returns (ok: bool)
      requires Valid() && i in graph && InitKept(done, active)
      requires forall p <- active :: Reaches(graph, p, i)
      modifies this`initialized, this`initLog
      ensures Valid() && old(initialized) <= initialized && i in initialized
      ensures InitOrdered(done) && old(initLog) <= initLog
      ensures ok ==> InitKept(done, active)
      ensures !ok ==> exists j :: j in graph && j !in old(initialized) && !initOk(j)
      decreases graph.Keys - initialized
    {
      if i !in initialized {
        initialized := initialized + {i};
        var deps := graph[i];
        for k := 0 to |deps|
          invariant Valid() && old(initialized) + {i} <= initialized && InitKept(done, active + {i}) && old(initLog) <= initLog
          invariant forall d <- deps[..k] :: d in initialized
        {
          ReachAll(active, i, deps[k]);
          ok := Initialize(deps[k], done, active + {i});
          if !ok {
            return;
          }
        }
        assert deps[..|deps|] == deps;
        if !initOk(i) {
          return false;
        }
        forall d | d in graph[i] ensures d in done || d in initLog || Reaches(graph, d, i) {
          ReachesSelf(graph, i);
        }
        OrderedNext(graph, done, initLog, i);
        assert Elements(initLog + [i]) == Elements(initLog) + {i};
        initLog := initLog + [i];
      }
      ok := true;
    }

    /** The initialize loop of Loader::prepare: it succeeds exactly when every pending routine
        does, and then all pending objects were initialized; none is initialized twice or before its
        dependencies, also when it fails. */
    method InitializeAll(lookup: seq<Id>) returns (ok: bool)
      requires Valid() && initLog == [] && Elements(lookup) == graph.Keys
      modifies this`initialized, this`initLog
      ensures ok <==> forall i <- graph.Keys - old(initialized) :: initOk(i)
      ensures ok ==> initialized == graph.Keys
      ensures NoDuplicates(initLog) && Elements(initLog) <= graph.Keys - old(initialized)
      ensures Ordered(graph, old(initialized), initLog) && forall i <- initLog :: initOk(i)
      ensures ok ==> Elements(initLog) == graph.Keys - old(initialized)
    {
      ghost var done := initialized;
      var k := |lookup|;
      while k > 0
        invariant 0 <= k <= |lookup|
        invariant Valid() && InitKept(done, {}) && done <= initialized
        invariant forall i <- lookup[k..] :: i in initialized
      {
        k := k - 1;
        assert lookup[k] in Elements(lookup);
        assert lookup[k..] == [lookup[k]] + lookup[k + 1..];
        ok := Initialize(lookup[k], done, {});
        if !ok {
          return;
        }
      }
      assert lookup[0..] == lookup;
      ok := true;
    }

    lemma StatusesPartition()
      requires Valid()
      ensures graph.Keys == InStatus(Mapped) + InStatus(Preparing) + InStatus(Prepared)
    {
      PartitionOf(status);
    }
  }

  lemma PartitionOf(m: map<Id, Status>)
    ensures m.Keys == In(m, Mapped) + In(m, Preparing) + In(m, Prepared)
    ensures In(m, Mapped) !! In(m, Preparing) !! In(m, Prepared)
  {
  }
}
