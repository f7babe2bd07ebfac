/** top's processor figures: each process's ticks since the last pass, found by a search that resumes where the last one hit. */
module Top {
  import opened CMemory

  datatype Process = Process(pid: int, ticks: nat, pcpu: nat)

  /** What is remembered of a process from the previous pass. */
  datatype Saved = Saved(pid: int, ticks: nat)

  /** The first entry of that pid, or the number of entries. */
  function Find(hist: seq<Saved>, pid: int): (k: nat)
    ensures k <= |hist| && (k < |hist| ==> hist[k].pid == pid)
    ensures forall i :: 0 <= i < k ==> hist[i].pid != pid
  {
    if hist == [] || hist[0].pid == pid then 0 else 1 + Find(hist[1..], pid)
  }

  /** The difference of two unsigned longs, cut to an unsigned. */
  function Since(ticks: nat, before: nat): nat {
    (ticks - before) % UINT_SIZE
  }

  /** What a fresh linear search gives a process. */
  function Share(hist: seq<Saved>, p: Process): nat {
    var k := Find(hist, p.pid);
    if k < |hist| then Since(p.ticks, hist[k].ticks) else 0
  }

  predicate DistinctPids(hist: seq<Saved>) {
    forall i, j :: 0 <= i < j < |hist| ==> hist[i].pid != hist[j].pid
  }

  /** The place k steps on from start, around the end. */
  function Around(start: nat, k: nat, count: nat): (i: nat)
    requires start < count && k <= count
    ensures i < count && (i == start <==> k == 0 || k == count)
  {
    if start + k < count then start + k else start + k - count
  }

  lemma NextAround(start: nat, k: nat, count: nat)
    requires start < count && k < count
    ensures Around(start, k + 1, count) == (Around(start, k, count) + 1) % count
  {
  }

  /** The entry the resumed search stops at: the first one of the pid from start on, around the end. */
  ghost predicate Stops(hist: seq<Saved>, start: nat, pid: int, i: nat)
    requires start < |hist|
    ensures Stops(hist, start, pid, i) ==> i < |hist| && hist[i].pid == pid
  {
    exists k :: 0 <= k < |hist| && i == Around(start, k, |hist|) && hist[i].pid == pid
                && forall j :: 0 <= j < k ==> hist[Around(start, j, |hist|)].pid != pid
  }

  lemma Reached(start: nat, count: nat, i: nat) returns (k: nat)
    requires start < count && i < count
    ensures k < count && Around(start, k, count) == i
  {
    k := if i >= start then i - start else i + count - start;
  }

  /** No entry of the pid on the first k steps from start. */
  predicate NoneBefore(hist: seq<Saved>, start: nat, pid: int, k: nat)
    requires start < |hist| && k <= |hist|
  {
    forall j :: 0 <= j < k ==> hist[Around(start, j, |hist|)].pid != pid
  }

  lemma OneFurther(hist: seq<Saved>, start: nat, pid: int, k: nat)
    requires start < |hist| && k < |hist| && NoneBefore(hist, start, pid, k) && hist[Around(start, k, |hist|)].pid != pid
    ensures NoneBefore(hist, start, pid, k + 1)
  {
    hide Around;
  }

  lemma NoneAtAll(hist: seq<Saved>, start: nat, pid: int)
    requires start < |hist| && NoneBefore(hist, start, pid, |hist|)
    ensures forall j :: 0 <= j < |hist| ==> hist[j].pid != pid
  {
    hide Around;
    forall j | 0 <= j < |hist| ensures hist[j].pid != pid {
      var k := Reached(start, |hist|, j);
    }
  }

  /** Where a search ends that has come k steps from start. */
  function From(hist: seq<Saved>, start: nat, pid: int, k: nat): (i: nat)
    requires start < |hist| && k <= |hist|
    ensures i < |hist|
    decreases |hist| - k
  {
    if k == |hist| then start
    else if hist[Around(start, k, |hist|)].pid == pid then Around(start, k, |hist|)
    else From(hist, start, pid, k + 1)
  }

  /** Where a search ends; the next one begins there. */
  function Place(hist: seq<Saved>, start: nat, pid: int): (i: nat)
    ensures start < |hist| ==> i < |hist|
  {
    if start < |hist| then From(hist, start, pid, 0) else start
  }

  lemma {:induction false} FromStops(hist: seq<Saved>, start: nat, pid: int, k: nat)
    requires start < |hist| && k <= |hist| && NoneBefore(hist, start, pid, k)
    ensures var i := From(hist, start, pid, k);
            if hist[i].pid == pid then Stops(hist, start, pid, i) else i == start && NoneBefore(hist, start, pid, |hist|)
    decreases |hist| - k
  {
    hide Around, NoneBefore, Stops;
    if k == |hist| {
      NoneAtAll(hist, start, pid);
    } else if hist[Around(start, k, |hist|)].pid == pid {
      StopsHere(hist, start, pid, k);
    } else {
      OneFurther(hist, start, pid, k);
      FromStops(hist, start, pid, k + 1);
    }
  }

  lemma StopsHere(hist: seq<Saved>, start: nat, pid: int, k: nat)
    requires start < |hist| && k < |hist| && hist[Around(start, k, |hist|)].pid == pid && NoneBefore(hist, start, pid, k)
    ensures Stops(hist, start, pid, Around(start, k, |hist|))
  {
    hide Around;
  }

  /** The search stops at the first entry of the pid from start on, or, without one, where it began. */
  lemma PlaceStops(hist: seq<Saved>, start: nat, pid: int)
    requires start < |hist|
    ensures var i := Place(hist, start, pid);
            if hist[i].pid == pid then Stops(hist, start, pid, i) else i == start && forall j :: 0 <= j < |hist| ==> hist[j].pid != pid
  {
    hide Around, NoneBefore, Stops, From;
    NothingBefore(hist, start, pid);
    FromStops(hist, start, pid, 0);
    if hist[Place(hist, start, pid)].pid != pid { NoneAtAll(hist, start, pid); }
  }

  lemma NothingBefore(hist: seq<Saved>, start: nat, pid: int)
    requires start < |hist|
    ensures Around(start, 0, |hist|) == start && NoneBefore(hist, start, pid, 0)
  {
  }

  /** The do-while loop, from where the last search ended; where the next one will begin. */
  method Search(hist: array<Saved>, start: nat, pid: int) returns (found: bool, i: nat)
    requires start < hist.Length
    ensures i == Place(hist[..], start, pid) && i < hist.Length && (found <==> hist[i].pid == pid)
    ensures found ==> Stops(hist[..], start, pid, i)
    ensures !found ==> i == start && forall j :: 0 <= j < hist.Length ==> hist[j].pid != pid
  {
    hide Around, Stops, From;
    ghost var h := hist[..];
    PlaceStops(h, start, pid);
    NothingBefore(h, start, pid);
    hide NoneBefore, Place;
    PlaceIs(h, start, pid);
    i := start;
    ghost var k := 0;
    while true
      invariant 0 <= k < hist.Length && i == Around(start, k, hist.Length)
      invariant From(h, start, pid, k) == Place(h, start, pid) && (k > 0 ==> hist[start].pid != pid)
      decreases hist.Length - k
    {
      FromStep(h, start, pid, k);
      if hist[i].pid == pid { return true, i; }
      NextAround(start, k, hist.Length);
      i := (i + 1) % hist.Length;
      k := k + 1;
      if i == start { break; }
    }
    found := false;
  }

  lemma PlaceIs(hist: seq<Saved>, start: nat, pid: int)
    requires start < |hist|
    ensures Place(hist, start, pid) == From(hist, start, pid, 0)
  {
  }

  lemma FromStep(hist: seq<Saved>, start: nat, pid: int, k: nat)
    requires start < |hist| && k < |hist|
    ensures var i := Around(start, k, |hist|);
            From(hist, start, pid, k) == if hist[i].pid == pid then i else From(hist, start, pid, k + 1)
    ensures From(hist, start, pid, |hist|) == start
  {
    hide Around;
  }

  /** The figure of a process when the search for it begins at start. */
  function Figure(hist: seq<Saved>, start: nat, p: Process): nat {
    if start < |hist| && hist[Place(hist, start, p.pid)].pid == p.pid then
      Since(p.ticks, hist[Place(hist, start, p.pid)].ticks)
    else 0
  }

  /** All entries of the process's pid give it the same figure. */
  predicate Agrees(hist: seq<Saved>, p: Process) {
    forall i :: 0 <= i < |hist| && hist[i].pid == p.pid ==> Since(p.ticks, hist[i].ticks) == Share(hist, p)
  }

  lemma DistinctAgrees(hist: seq<Saved>, p: Process)
    requires DistinctPids(hist)
    ensures Agrees(hist, p)
  {
  }

  lemma FigureAgrees(hist: seq<Saved>, start: nat, p: Process)
    requires Agrees(hist, p) && (start < |hist| || hist == [])
    ensures Figure(hist, start, p) == Share(hist, p)
  {
    hide Place, Since, Stops;
    if hist != [] { PlaceStops(hist, start, p.pid); }
  }

  /** A search that begins at an entry of the pid ends there. */
  lemma FoundAtOnce(hist: seq<Saved>, i: nat)
    requires i < |hist|
    ensures Place(hist, i, hist[i].pid) == i
  {
    hide Around;
    NothingBefore(hist, i, hist[i].pid);
    FromStep(hist, i, hist[i].pid, 0);
  }

  /**
   * The resumed search gives what a fresh linear one gives, wherever it begins, exactly when the entries of the pid
   * agree: otherwise there is a place to begin at that gives another figure.
   */
  lemma ResumedIsLinear(hist: seq<Saved>, p: Process)
    ensures Agrees(hist, p) <==> forall start :: 0 <= start < |hist| ==> Figure(hist, start, p) == Share(hist, p)
  {
    hide Since, Share, Place;
    if Agrees(hist, p) {
      forall start | 0 <= start < |hist| ensures Figure(hist, start, p) == Share(hist, p) { FigureAgrees(hist, start, p); }
    }
    forall i | 0 <= i < |hist| && hist[i].pid == p.pid ensures Figure(hist, i, p) == Since(p.ticks, hist[i].ticks) {
      FoundAtOnce(hist, i);
    }
  }

  // ---------------------------------------------------------------- a pass over all processes

  function Total(ps: seq<Process>): nat {
    if ps == [] then 0 else Total(ps[..|ps| - 1]) + ps[|ps| - 1].pcpu
  }

  function Save(ps: seq<Process>): (h: seq<Saved>)
    ensures |h| == |ps| && forall i :: 0 <= i < |ps| ==> h[i] == Saved(ps[i].pid, ps[i].ticks)
  {
    seq(|ps|, i requires 0 <= i < |ps| => Saved(ps[i].pid, ps[i].ticks))
  }

  /** Where the search for the next process begins, after these. */
  function PlaceAfter(hist: seq<Saved>, ps: seq<Process>): (i: nat)
    ensures hist != [] ==> i < |hist|
  {
    if ps == [] then 0 else Place(hist, PlaceAfter(hist, ps[..|ps| - 1]), ps[|ps| - 1].pid)
  }

  /** The processes with their figures, each found from where the one before it was. */
  function Passed(hist: seq<Saved>, ps: seq<Process>): (qs: seq<Process>)
    ensures |qs| == |ps|
  {
    if ps == [] then []
    else
      var before, p := ps[..|ps| - 1], ps[|ps| - 1];
      Passed(hist, before) + [p.(pcpu := Figure(hist, PlaceAfter(hist, before), p))]
  }

  /** Nothing but the figures changes, and where the entries agree the figure is that of a fresh linear search. */
  lemma {:induction false} PassedAt(hist: seq<Saved>, ps: seq<Process>, n: nat)
    requires n < |ps|
    ensures Passed(hist, ps)[n] == ps[n].(pcpu := Figure(hist, PlaceAfter(hist, ps[..n]), ps[n]))
    ensures Agrees(hist, ps[n]) ==> Passed(hist, ps)[n].pcpu == Share(hist, ps[n])
    decreases |ps|
  {
    hide Figure, PlaceAfter, Agrees, Share;
    if n < |ps| - 1 {
      assert ps[..|ps| - 1][..n] == ps[..n];
      PassedAt(hist, ps[..|ps| - 1], n);
    } else if Agrees(hist, ps[n]) {
      FigureAgrees(hist, PlaceAfter(hist, ps[..n]), ps[n]);
    }
  }

  /**
   * The first n processes are done: t are the processes, s what is saved of them, i the place for the next search,
   * and the total is that of their figures.
   */
  predicate Done(hist: seq<Saved>, was: seq<Process>, n: nat, t: seq<Process>, s: seq<Saved>, i: nat, total: nat) {
    && n <= |t| == |s| == |was| && i == PlaceAfter(hist, was[..n])
    && t[..n] == Passed(hist, was[..n]) && t[n..] == was[n..] && s[..n] == Save(was[..n])
    && total == Total(t[..n]) % UINT_SIZE
  }

  lemma NoneDone(hist: seq<Saved>, was: seq<Process>, s: seq<Saved>)
    requires |s| == |was|
    ensures Done(hist, was, 0, was, s, 0, 0)
  {
    assert was[..0] == [] && s[..0] == [];
  }

  lemma AllDone(hist: seq<Saved>, was: seq<Process>, t: seq<Process>, s: seq<Saved>, i: nat, total: nat)
    requires Done(hist, was, |was|, t, s, i, total)
    ensures t == Passed(hist, was) && s == Save(was) && total == Total(t) % UINT_SIZE
  {
    hide Passed, Total, Save;
    assert was[..|was|] == was && t[..|was|] == t && s[..|was|] == s;
  }

  lemma OneDone(hist: seq<Saved>, was: seq<Process>, n: nat, t: seq<Process>, s: seq<Saved>, i: nat, total: nat)
    requires Done(hist, was, n, t, s, i, total) && n < |was|
    ensures t[n] == was[n]
    ensures var p := was[n].(pcpu := Figure(hist, i, was[n]));
            Done(hist, was, n + 1, t[n := p], s[n := Saved(p.pid, p.ticks)], Place(hist, i, p.pid), (total + p.pcpu) % UINT_SIZE)
  {
    hide Figure, Place, Passed, Save, Total, PlaceAfter;
    assert t[n] == t[n..][0] == was[n..][0];
    var p := was[n].(pcpu := Figure(hist, i, was[n]));
    OneMore(hist, was, n);
    TotalStep(t[..n], p);
    assert t[n := p][..n + 1] == t[..n] + [p] && t[n := p][n + 1..] == t[n..][1..] && was[n + 1..] == was[n..][1..];
    assert s[n := Saved(p.pid, p.ticks)][..n + 1] == s[..n] + [Saved(p.pid, p.ticks)];
  }

  /** One process more. */
  lemma OneMore(hist: seq<Saved>, ps: seq<Process>, n: nat)
    requires n < |ps|
    ensures PlaceAfter(hist, ps[..n + 1]) == Place(hist, PlaceAfter(hist, ps[..n]), ps[n].pid)
    ensures Passed(hist, ps[..n + 1]) == Passed(hist, ps[..n]) + [ps[n].(pcpu := Figure(hist, PlaceAfter(hist, ps[..n]), ps[n]))]
    ensures Save(ps[..n + 1]) == Save(ps[..n]) + [Saved(ps[n].pid, ps[n].ticks)]
  {
    hide Figure, Place;
    assert ps[..n + 1][..n] == ps[..n];
  }

  lemma TotalStep(ps: seq<Process>, p: Process)
    ensures Total(ps + [p]) == Total(ps) + p.pcpu
  {
    assert (ps + [p])[..|ps|] == ps;
  }

  /** The part of the loop's body that finds a process's figure. */
  method FindFigure(hist: array<Saved>, start: nat, p: Process) returns (pcpu: nat, i: nat)
    requires start < hist.Length || hist.Length == 0
    ensures pcpu == Figure(hist[..], start, p) && i == Place(hist[..], start, p.pid)
  {
    hide Since, Stops;
    pcpu, i := 0, start;
    if hist.Length > 0 {
      hide Place;
      var found;
      found, i := Search(hist, start, p.pid);
      if found { pcpu := Since(p.ticks, hist[i].ticks); }
    }
  }

  class Stats {
    var top: array<Process>
    var prevHist: array<Saved>
    var totalPcpu: nat

    constructor (top: array<Process>)
      ensures this.top == top && prevHist.Length == 0 && totalPcpu == 0
    {
      this.top, prevHist, totalPcpu := top, new Saved[0], 0;
    }

    /** do_stats: the new figures, their sum, and the list saved for the next pass. */
    method DoStats()
      modifies this`prevHist, this`totalPcpu, top
      ensures fresh(prevHist) && prevHist[..] == Save(old(top[..]))
      ensures top[..] == Passed(old(prevHist[..]), old(top[..]))
      ensures totalPcpu == Total(top[..]) % UINT_SIZE
    {
      hide Done, Figure, Place, PlaceAfter, Passed, Save, Total;
      var hist := prevHist;
      var newHist := new Saved[top.Length];
      var i: nat, total: nat := 0, 0;
      ghost var was, h := top[..], hist[..];
      NoneDone(h, was, newHist[..]);
      for n := 0 to top.Length
        invariant hist[..] == h && (i < hist.Length || hist.Length == 0)
        invariant Done(h, was, n, top[..], newHist[..], i, total)
      {
        var cur := top[n];
        ghost var t, s := top[..], newHist[..];
        OneDone(h, was, n, t, s, i, total);
        newHist[n] := Saved(cur.pid, cur.ticks);
        var pcpu;
        pcpu, i := FindFigure(hist, i, cur);
        top[n] := cur.(pcpu := pcpu);
        total := (total + pcpu) % UINT_SIZE;
        assert top[..] == t[n := top[n]] && newHist[..] == s[n := newHist[n]];
      }
      prevHist, totalPcpu := newHist, total;
      AllDone(h, was, top[..], newHist[..], i, total);
    }
  }

  // ---------------------------------------------------------------- two passes in a row

  /** The process was there in the pass before, and has used d ticks since then; or it was not, and d is 0. */
  ghost predicate HasUsed(before: seq<Process>, p: Process, d: nat) {
    if exists i :: 0 <= i < |before| && before[i].pid == p.pid then
      d < 0x1_0000_0000 && exists i :: 0 <= i < |before| && before[i].pid == p.pid && p.ticks == before[i].ticks + d
    else d == 0
  }

  predicate Distinct(ps: seq<Process>) {
    forall i, j :: 0 <= i < j < |ps| ==> ps[i].pid != ps[j].pid
  }

  function SumOf(ds: seq<nat>): nat {
    if ds == [] then 0 else SumOf(ds[..|ds| - 1]) + ds[|ds| - 1]
  }

  lemma ShareIsUsed(before: seq<Process>, p: Process, d: nat)
    requires Distinct(before) && HasUsed(before, p, d)
    ensures Share(Save(before), p) == d
  {
    var h := Save(before);
    var k := Find(h, p.pid);
    if exists i :: 0 <= i < |before| && before[i].pid == p.pid {
      var i :| 0 <= i < |before| && before[i].pid == p.pid && p.ticks == before[i].ticks + d;
      assert h[i].pid == p.pid;
      assert k == i;
    }
  }

  /** A process's figure after the second of two passes: the ticks it has used since the first. */
  lemma FigureIsUsed(before: seq<Process>, now: seq<Process>, n: nat, d: nat)
    requires Distinct(before) && n < |now| && HasUsed(before, now[n], d)
    ensures Passed(Save(before), now)[n] == now[n].(pcpu := d)
  {
    hide Passed, HasUsed, Share;
    assert DistinctPids(Save(before));
    DistinctAgrees(Save(before), now[n]);
    PassedAt(Save(before), now, n);
    ShareIsUsed(before, now[n], d);
  }

  /**
   * Two passes in a row: every process that was there before gets the ticks it has used in between, every other one 0,
   * and the total is the sum of these.
   */
  lemma TwoPasses(before: seq<Process>, now: seq<Process>, ds: seq<nat>)
    requires Distinct(before) && |ds| == |now| && forall n :: 0 <= n < |now| ==> HasUsed(before, now[n], ds[n])
    ensures var after := Passed(Save(before), now);
            && (forall n :: 0 <= n < |now| ==> after[n] == now[n].(pcpu := ds[n]))
            && Total(after) % UINT_SIZE == SumOf(ds) % 0x1_0000_0000
  {
    hide Passed, HasUsed;
    var after := Passed(Save(before), now);
    forall n | 0 <= n < |now| ensures after[n] == now[n].(pcpu := ds[n]) { FigureIsUsed(before, now, n, ds[n]); }
    TotalIsSum(after, ds);
  }

  lemma {:induction false} TotalIsSum(ps: seq<Process>, ds: seq<nat>)
    requires |ds| == |ps| && forall n :: 0 <= n < |ps| ==> ps[n].pcpu == ds[n]
    ensures Total(ps) == SumOf(ds)
    decreases |ps|
  {
    if ps != [] { TotalIsSum(ps[..|ps| - 1], ds[..|ds| - 1]); }
  }
}
