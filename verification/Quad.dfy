/**
The quadrature decoders of kernel/linux_bast/reciva: reciva_quad_piher_20pulse.c with its pulse threshold, and
reciva_quad_piher_ci11.c.
 */
module Quad {
  import opened Bits

  datatype Direction = Unexpected | Clockwise | Anticlockwise

  /** The levels of the two shaft pins. */
  type Pins = p: int | 0 <= p < 4

  /** The lookup table of both drivers, indexed by the old and the new pins. */
  const LOOKUP: seq<seq<Direction>> := [
    [Unexpected, Anticlockwise, Clockwise, Unexpected],
    [Clockwise, Unexpected, Unexpected, Anticlockwise],
    [Anticlockwise, Unexpected, Unexpected, Clockwise],
    [Unexpected, Clockwise, Anticlockwise, Unexpected]]

  function DirectionOf(old_: Pins, new_: Pins): Direction {
    LOOKUP[old_][new_]
  }

  /** input_report_rel: +1 for a clockwise report, -1 for an anticlockwise one, nothing otherwise. */
  function Report(d: Direction): seq<int> {
    match d
    case Clockwise => [1]
    case Anticlockwise => [-1]
    case Unexpected => []
  }

  // ---------------------------------------------------------------- the 20-pulse decoder

  /** The static variables of do_quad, and everything reported so far. */
  datatype State = State(directionOld: Direction, count: int, reports: seq<int>)

  const START := State(Unexpected, 0, [])

  /** do_quad of the 20-pulse driver for one direction. */
  function Step(s: State, d: Direction, threshold: int): State {
    if s.directionOld == d then
      if s.count + 1 >= threshold then State(d, 0, s.reports + Report(d)) else s.(count := s.count + 1)
    else
      State(d, 1, s.reports)
  }

  function Run(ds: seq<Direction>, threshold: int): State {
    if ds == [] then START else Step(Run(ds[..|ds| - 1], threshold), ds[|ds| - 1], threshold)
  }

  /** The directions between successive samples of the pins. */
  function Directions(samples: seq<Pins>): seq<Direction> {
    seq(if samples == [] then 0 else |samples| - 1,
        i requires 0 <= i < |samples| - 1 => DirectionOf(samples[i], samples[i + 1]))
  }

  class Decoder20 {
    const pulseThreshold: int
    var shaftOld: Pins
    var directionOld: Direction
    var iCount: int
    ghost var reports: seq<int>
    ghost var samples: seq<Pins>

    ghost predicate Valid()
      reads this
    {
      && samples != [] && samples[|samples| - 1] == shaftOld
      && State(directionOld, iCount, reports) == Run(Directions(samples), pulseThreshold)
    }

    constructor (pulseThreshold: int, pins: Pins)
      ensures Valid() && this.pulseThreshold == pulseThreshold && samples == [pins] && reports == []
    {
      this.pulseThreshold := pulseThreshold;
      shaftOld, directionOld, iCount, reports, samples := pins, Unexpected, 0, [], [pins];
    }

    /** do_quad. */
    method DoQuad(shaftNew: Pins)
      modifies this`directionOld, this`iCount, this`reports
      ensures State(directionOld, iCount, reports)
           == Step(old(State(directionOld, iCount, reports)), DirectionOf(shaftOld, shaftNew), pulseThreshold)
    {
      var direction := DirectionOf(shaftOld, shaftNew);
      if directionOld == direction {
        iCount := iCount + 1;
        if iCount >= pulseThreshold {
          iCount := 0;
          reports := reports + Report(direction);
        }
      } else {
        iCount := 1;
        directionOld := direction;
      }
    }

    /** reciva_quad_int_handler. */
    method IntHandler(shaftNew: Pins)
      requires Valid()
      modifies this
      ensures Valid() && samples == old(samples) + [shaftNew]
    {
      DirectionsSnoc(samples, shaftNew);
      DoQuad(shaftNew);
      shaftOld := shaftNew;
      samples := samples + [shaftNew];
    }
  }

  lemma DirectionsSnoc(samples: seq<Pins>, p: Pins)
    requires samples != []
    ensures var ds := Directions(samples + [p]);
            ds != [] && ds[..|ds| - 1] == Directions(samples) && ds[|ds| - 1] == DirectionOf(samples[|samples| - 1], p)
  {
  }

  // ---------------------------------------------------------------- the ci11 decoder

  datatype Ci11State = Ci11State(directionOld: Direction, reports: seq<int>)

  /** do_quad of the ci11 driver for one direction. */
  function Ci11Step(s: Ci11State, d: Direction): Ci11State {
    if s.directionOld == d then Ci11State(Unexpected, s.reports + Report(d)) else Ci11State(d, s.reports)
  }

  function Ci11Run(ds: seq<Direction>): Ci11State {
    if ds == [] then Ci11State(Unexpected, []) else Ci11Step(Ci11Run(ds[..|ds| - 1]), ds[|ds| - 1])
  }

  /** What one interrupt of the ci11 driver reads: the handler's own read of the pins, and then do_quad's. */
  datatype Reads = Reads(handler: Pins, quad: Pins)

  /** The directions that do_quad sees: from the handler's last read to its own. */
  function Ci11Directions(r: seq<Reads>): seq<Direction> {
    seq(if r == [] then 0 else |r| - 1,
        i requires 0 <= i < |r| - 1 => DirectionOf(r[i].handler, r[i + 1].quad))
  }

  lemma Ci11DirectionsSnoc(r: seq<Reads>, x: Reads)
    requires r != []
    ensures var ds := Ci11Directions(r + [x]);
            && ds != [] && ds[..|ds| - 1] == Ci11Directions(r)
            && ds[|ds| - 1] == DirectionOf(r[|r| - 1].handler, x.quad)
  {
  }

  class DecoderCi11 {
    var shaftOld: Pins
    var directionOld: Direction
    ghost var reports: seq<int>
    ghost var history: seq<Reads>

    ghost predicate Valid()
      reads this
    {
      && history != [] && history[|history| - 1].handler == shaftOld
      && Ci11State(directionOld, reports) == Ci11Run(Ci11Directions(history))
    }

    constructor (pins: Pins)
      ensures Valid() && history == [Reads(pins, pins)] && reports == []
    {
      shaftOld, directionOld, reports, history := pins, Unexpected, [], [Reads(pins, pins)];
    }

    /** do_quad, which reads the pins itself. */
    method DoQuad(shaftNew: Pins)
      modifies this`directionOld, this`reports
      ensures Ci11State(directionOld, reports)
           == Ci11Step(old(Ci11State(directionOld, reports)), DirectionOf(shaftOld, shaftNew))
    {
      var direction := DirectionOf(shaftOld, shaftNew);
      if directionOld == direction {
        directionOld := Unexpected;
        reports := reports + Report(direction);
      } else {
        directionOld := direction;
      }
    }

    /** reciva_quad_int_handler. */
    method IntHandler(r: Reads)
      requires Valid()
      modifies this
      ensures Valid() && history == old(history) + [r]
    {
      Ci11DirectionsSnoc(history, r);
      DoQuad(r.quad);
      shaftOld := r.handler;
      history := history + [r];
    }
  }

  // ---------------------------------------------------------------- the two decoders agree

  /** Over every run, the ci11 decoder remembers what the 20-pulse decoder with threshold 2 has counted once. */
  lemma {:induction false} DecodersSimulate(ds: seq<Direction>)
    ensures Ci11Run(ds).reports == Run(ds, 2).reports
    ensures Ci11Run(ds).directionOld == if Run(ds, 2).count == 1 then Run(ds, 2).directionOld else Unexpected
    ensures 0 <= Run(ds, 2).count <= 1
  {
    if ds != [] { DecodersSimulate(ds[..|ds| - 1]); }
  }

  /** What the 20-pulse decoder has counted once. */
  function Remembered(s: State): Direction {
    if s.count == 1 then s.directionOld else Unexpected
  }

  /** The two decoders have reported the same and will go on doing so. */
  predicate InStep(s: State, c: Ci11State) {
    0 <= s.count <= 1 && c.directionOld == Remembered(s) && c.reports == s.reports
  }

  /** Decoders in step stay in step exactly when they see the same direction. */
  lemma StepsAgree(s: State, c: Ci11State, d: Direction, e: Direction)
    requires InStep(s, c)
    ensures InStep(Step(s, d, 2), Ci11Step(c, e)) <==> d == e
    ensures 0 <= Step(s, d, 2).count <= 1
  {
    assert s.reports == s.reports + [];
    assert s.reports + [1] != s.reports + [-1] by { assert (s.reports + [1])[|s.reports|] == 1; }
  }

  /** Decoders out of step report differently at once, or after one more move of the shaft. */
  lemma OutOfStep(s: State, c: Ci11State, p: Pins) returns (x: Pins)
    requires !InStep(s, c) && 0 <= s.count <= 1 && c.reports == s.reports
    ensures Step(s, DirectionOf(p, x), 2).reports != Ci11Step(c, DirectionOf(p, x)).reports
  {
    var d := if Remembered(s) != Unexpected then Remembered(s) else c.directionOld;
    x :| DirectionOf(p, x) == d by { Neighbours(p); }
  }

  lemma Neighbours(p: Pins)
    ensures exists x: Pins :: DirectionOf(p, x) == Clockwise
    ensures exists x: Pins :: DirectionOf(p, x) == Anticlockwise
  {
    var x: Pins := if p == 0 then 2 else if p == 1 then 0 else if p == 2 then 3 else 1;
    var y: Pins := if p == 0 then 1 else if p == 1 then 3 else if p == 2 then 0 else 2;
    assert DirectionOf(p, x) == Clockwise && DirectionOf(p, y) == Anticlockwise;
  }

  /** The samples of a decoder that reads once. */
  function Handlers(r: seq<Reads>): (h: seq<Pins>)
    ensures |h| == |r|
  {
    seq(|r|, i requires 0 <= i < |r| => r[i].handler)
  }

  /** The decoders have reported the same: the ci11 decoder with both reads, the other with the handler's. */
  predicate SameReports(r: seq<Reads>) {
    Run(Directions(Handlers(r)), 2).reports == Ci11Run(Ci11Directions(r)).reports
  }

  /** They have, and one more clean sample cannot tell them apart either. */
  predicate Indistinguishable(r: seq<Reads>) {
    SameReports(r) && forall x: Pins :: SameReports(r + [Reads(x, x)])
  }

  /** What a caller can check at each interrupt: the reads agree, or one saw no move and the other both pins moved. */
  predicate Harmless(old_: Pins, x: Reads) {
    x.quad == x.handler || (x.quad == old_ && x.handler == 3 - old_) || (x.handler == old_ && x.quad == 3 - old_)
  }

  lemma HarmlessIs(old_: Pins, x: Reads)
    ensures Harmless(old_, x) <==> DirectionOf(old_, x.quad) == DirectionOf(old_, x.handler)
  {
  }

  /** One more interrupt, seen by both decoders. */
  lemma BothStep(r: seq<Reads>, x: Reads)
    requires r != []
    ensures var p := r[|r| - 1].handler;
            && Run(Directions(Handlers(r + [x])), 2)
               == Step(Run(Directions(Handlers(r)), 2), DirectionOf(p, x.handler), 2)
            && Ci11Run(Ci11Directions(r + [x])) == Ci11Step(Ci11Run(Ci11Directions(r)), DirectionOf(p, x.quad))
  {
    hide DirectionOf, Step, Ci11Step, Directions, Ci11Directions;
    assert Handlers(r + [x]) == Handlers(r) + [x.handler];
    DirectionsSnoc(Handlers(r), x.handler);
    Ci11DirectionsSnoc(r, x);
  }

  lemma InStepIsIndistinguishable(r: seq<Reads>)
    requires r != [] && 0 <= Run(Directions(Handlers(r)), 2).count <= 1
    ensures InStep(Run(Directions(Handlers(r)), 2), Ci11Run(Ci11Directions(r))) <==> Indistinguishable(r)
  {
    hide DirectionOf, Step, Ci11Step, Directions, Ci11Directions, Run, Ci11Run, Handlers;
    var s, c, p := Run(Directions(Handlers(r)), 2), Ci11Run(Ci11Directions(r)), r[|r| - 1].handler;
    if InStep(s, c) {
      forall x: Pins
        ensures SameReports(r + [Reads(x, x)])
      {
        BothStep(r, Reads(x, x));
        StepsAgree(s, c, DirectionOf(p, x), DirectionOf(p, x));
      }
    } else if c.reports == s.reports {
      var x := OutOfStep(s, c, p);
      BothStep(r, Reads(x, x));
      assert !SameReports(r + [Reads(x, x)]);
    }
  }

  /**
   The two reads of the ci11 handler: over every run, the decoders stay indistinguishable by their reports, at every
   prefix, if and only if the two reads of every interrupt are harmless.
   */
  lemma {:induction false} SplitReads(r: seq<Reads>)
    requires r != []
    ensures (forall k :: 1 <= k <= |r| ==> Indistinguishable(r[..k]))
       <==> (forall i :: 1 <= i < |r| ==> Harmless(r[i - 1].handler, r[i]))
    ensures (forall i :: 1 <= i < |r| ==> Harmless(r[i - 1].handler, r[i])) ==>
              InStep(Run(Directions(Handlers(r)), 2), Ci11Run(Ci11Directions(r)))
    decreases |r|
  {
    hide Indistinguishable, Harmless, InStep, Run, Ci11Run, Directions, Ci11Directions, Handlers, Step, Ci11Step;
    var n := |r| - 1;
    assert r[..n + 1] == r;
    if n == 0 {
      FirstRead(r);
      InStepIsIndistinguishable(r);
    } else {
      var t, p := r[..n], r[n - 1].handler;
      assert r == t + [r[n]];
      assert forall k :: 1 <= k <= n ==> t[..k] == r[..k];
      SplitReads(t);
      if forall i :: 1 <= i < n ==> Harmless(r[i - 1].handler, r[i]) {
        assert forall i :: 1 <= i < |t| ==> Harmless(t[i - 1].handler, t[i]);
        BothStep(t, r[n]);
        StepsAgree(Run(Directions(Handlers(t)), 2), Ci11Run(Ci11Directions(t)),
                   DirectionOf(p, r[n].handler), DirectionOf(p, r[n].quad));
        HarmlessIs(p, r[n]);
        InStepIsIndistinguishable(r);
      } else {
        var i :| 1 <= i < n && !Harmless(r[i - 1].handler, r[i]);
        assert !Harmless(t[i - 1].handler, t[i]);
        var k :| 1 <= k <= n && !Indistinguishable(t[..k]);
        assert !Indistinguishable(r[..k]);
      }
    }
  }

  lemma FirstRead(r: seq<Reads>)
    requires |r| == 1
    ensures InStep(Run(Directions(Handlers(r)), 2), Ci11Run(Ci11Directions(r)))
    ensures Run(Directions(Handlers(r)), 2).count == 0
  {
    assert Directions(Handlers(r)) == [] && Ci11Directions(r) == [];
  }

  /** Two decoders on the same shaft have reported the same as long as the reads of every interrupt were harmless. */
  lemma DecodersAgree(a: Decoder20, b: DecoderCi11)
    requires a.Valid() && b.Valid() && a.pulseThreshold == 2 && a.samples == Handlers(b.history)
    requires forall i :: 1 <= i < |b.history| ==> Harmless(b.history[i - 1].handler, b.history[i])
    ensures a.reports == b.reports
  {
    hide Harmless, Run, Ci11Run, Directions, Ci11Directions, Handlers;
    SplitReads(b.history);
  }

  /** A pin that moves between the two reads of an interrupt can make the ci11 decoder lose a pulse. */
  lemma SplitReadLosesPulse()
    ensures !Harmless(0, Reads(1, 3))
    ensures Run(Directions([0, 1, 3]), 2).reports == [-1]
    ensures Ci11Run(Ci11Directions([Reads(0, 0), Reads(1, 3), Reads(3, 3)])).reports == []
  {
    var ds, es := Directions([0, 1, 3]), Ci11Directions([Reads(0, 0), Reads(1, 3), Reads(3, 3)]);
    assert ds == [Anticlockwise, Anticlockwise] && ds[..1] == [Anticlockwise] && ds[..1][..0] == [];
    assert es == [Unexpected, Anticlockwise] && es[..1] == [Unexpected] && es[..1][..0] == [];
  }

  // ---------------------------------------------------------------- the run-length law

  /** The length of the longest run of equal directions at the end. */
  function TrailingRun(ds: seq<Direction>): (n: nat)
    ensures n <= |ds| && (ds != [] ==> n > 0)
  {
    var k := |ds|;
    if k == 0 then 0
    else if k > 1 && ds[k - 2] == ds[k - 1] then 1 + TrailingRun(ds[..k - 1])
    else 1
  }

  function Repeat(r: seq<int>, n: nat): seq<int> {
    if n == 0 then [] else Repeat(r, n - 1) + r
  }

  /** The reports of a run of n equal directions. */
  function RunLength(n: nat, threshold: int): nat {
    if threshold >= 2 then n / threshold else if n == 0 then 0 else n - 1
  }

  /** What the run-length law promises: each maximal run reports on its own. */
  function RunReports(ds: seq<Direction>, threshold: int): seq<int> {
    if ds == [] then []
    else
      var n := TrailingRun(ds);
      RunReports(ds[..|ds| - n], threshold) + Repeat(Report(ds[|ds| - 1]), RunLength(n, threshold))
  }

  lemma RunGrows(ds: seq<Direction>, d: Direction)
    ensures var n := if ds != [] && ds[|ds| - 1] == d then TrailingRun(ds) + 1 else 1;
            TrailingRun(ds + [d]) == n && (ds + [d])[..|ds| + 1 - n] == ds[..|ds| + 1 - n]
  {
    hide TrailingRun;
    var n := if ds != [] && ds[|ds| - 1] == d then TrailingRun(ds) + 1 else 1;
    assert 1 <= n <= |ds| + 1;
    PrefixOfSnoc(ds, d, |ds|);
    SnocTail(ds, d);
    TrailingRunOfSnoc(ds, d, ds + [d]);
    PrefixOfSnoc(ds, d, |ds| + 1 - n);
  }

  lemma SnocTail(ds: seq<Direction>, d: Direction)
    ensures |ds + [d]| == |ds| + 1 && (ds + [d])[|ds|] == d
  {
  }

  lemma TrailingRunOfSnoc(ds: seq<Direction>, d: Direction, e: seq<Direction>)
    requires |e| == |ds| + 1 && e[..|ds|] == ds && e[|ds|] == d
    ensures TrailingRun(e) == if ds != [] && ds[|ds| - 1] == d then TrailingRun(ds) + 1 else 1
  {
    assert ds != [] ==> e[|ds| - 1] == e[..|ds|][|ds| - 1];
  }

  lemma PrefixOfSnoc(ds: seq<Direction>, d: Direction, m: nat)
    requires m <= |ds|
    ensures (ds + [d])[..m] == ds[..m] && ds[..|ds|] == ds
  {
  }

  lemma DivStep(n: nat, t: int)
    requires t >= 2
    ensures n % t + 1 < t ==> (n + 1) / t == n / t && (n + 1) % t == n % t + 1
    ensures n % t + 1 >= t ==> (n + 1) / t == n / t + 1 && (n + 1) % t == 0
  {
    var q, r := n / t, n % t;
    assert n == q * t + r;
    if r + 1 < t {
      DivIs(n + 1, t, q, r + 1);
    } else {
      assert (q + 1) * t == q * t + t;
      DivIs(n + 1, t, q + 1, 0);
    }
  }

  /** The count after n equal directions. */
  function CountAfter(n: nat, threshold: int): int {
    if threshold >= 2 then n % threshold else if n == 1 then 1 else 0
  }

  lemma {:induction false} RepeatNothing(n: nat)
    ensures Repeat([], n) == []
  {
    if n > 0 { RepeatNothing(n - 1); }
  }

  /** Counting on from n equal directions. */
  lemma RunStep(n: nat, threshold: int)
    requires n >= 1
    ensures CountAfter(n, threshold) + 1 >= threshold ==>
              RunLength(n + 1, threshold) == RunLength(n, threshold) + 1 && CountAfter(n + 1, threshold) == 0
    ensures CountAfter(n, threshold) + 1 < threshold ==>
              RunLength(n + 1, threshold) == RunLength(n, threshold)
              && CountAfter(n + 1, threshold) == CountAfter(n, threshold) + 1
    ensures RunLength(1, threshold) == 0 && CountAfter(1, threshold) == 1
  {
    if threshold >= 2 { DivStep(n, threshold); }
  }

  /** A direction that starts a new run reports nothing yet. */
  lemma NewRunReports(p: seq<Direction>, d: Direction, threshold: int)
    requires p == [] || p[|p| - 1] != d
    ensures RunReports(p + [d], threshold) == RunReports(p, threshold) && TrailingRun(p + [d]) == 1
  {
    RunGrows(p, d);
    assert (p + [d])[..|p|] == p[..|p|] == p;
    RunStep(1, threshold);
    assert Repeat(Report(d), 0) == [];
    assert RunReports(p, threshold) + [] == RunReports(p, threshold);
  }

  /** A direction that continues a run reports when the count reaches the threshold. */
  lemma LongerRunReports(p: seq<Direction>, d: Direction, threshold: int)
    requires p != [] && p[|p| - 1] == d
    ensures TrailingRun(p + [d]) == TrailingRun(p) + 1
    ensures RunReports(p + [d], threshold)
         == RunReports(p, threshold)
            + if CountAfter(TrailingRun(p), threshold) + 1 >= threshold then Report(d) else []
  {
    hide Report, CountAfter, RunLength, TrailingRun, RunReports;
    var n := TrailingRun(p);
    RunGrows(p, d);
    RunStep(n, threshold);
    LastRun(p, threshold);
    LastRun(p + [d], threshold);
    var base, r := RunReports(p[..|p| - n], threshold), Report(d);
    if CountAfter(n, threshold) + 1 >= threshold {
      assert base + (Repeat(r, RunLength(n, threshold)) + r) == base + Repeat(r, RunLength(n, threshold)) + r;
    }
  }

  /** The reports end with those of the last run. */
  lemma LastRun(ds: seq<Direction>, threshold: int)
    requires ds != []
    ensures var n := TrailingRun(ds);
            && n <= |ds|
            && RunReports(ds, threshold)
            == RunReports(ds[..|ds| - n], threshold) + Repeat(Report(ds[|ds| - 1]), RunLength(n, threshold))
  {
    hide Report, RunLength, TrailingRun, Repeat;
  }

  /** For every threshold and every run of samples: the reports are those of the maximal runs, one after the other. */
  lemma {:induction false} RunLengthLaw(ds: seq<Direction>, threshold: int)
    ensures Run(ds, threshold).reports == RunReports(ds, threshold)
    ensures Run(ds, threshold).directionOld == if ds == [] then Unexpected else ds[|ds| - 1]
    ensures Run(ds, threshold).directionOld != Unexpected ==>
              Run(ds, threshold).count == CountAfter(TrailingRun(ds), threshold)
  {
    if ds != [] {
      hide RunReports, TrailingRun, CountAfter;
      var p, d := ds[..|ds| - 1], ds[|ds| - 1];
      assert ds == p + [d];
      RunLengthLaw(p, threshold);
      if p == [] || p[|p| - 1] != d {
        NewRunReports(p, d, threshold);
        RunStep(1, threshold);
      } else {
        LongerRunReports(p, d, threshold);
        RunStep(TrailingRun(p), threshold);
      }
    }
  }

  function Uniform(d: Direction, n: nat): (ds: seq<Direction>)
    ensures |ds| == n
  {
    seq(n, i => d)
  }

  /** What a decoder reports while the shaft turns n steps in one direction. */
  lemma UniformReports(d: Direction, n: nat, threshold: int)
    requires d != Unexpected
    ensures |Run(Uniform(d, n), threshold).reports| == RunLength(n, threshold)
  {
    hide TrailingRun, RunLength, Run;
    var ds := Uniform(d, n);
    RunLengthLaw(ds, threshold);
    if n == 0 {
      NoReports(threshold);
      NothingToReport(threshold);
    } else {
      UniformRun(ds, d);
      LastRun(ds, threshold);
      assert ds[..0] == [];
      NoReports(threshold);
      RepeatLength(d, RunLength(n, threshold));
    }
  }

  lemma NothingToReport(threshold: int)
    ensures RunLength(0, threshold) == 0
  {
  }

  lemma {:induction false} RepeatLength(d: Direction, n: nat)
    requires d != Unexpected
    ensures |Repeat(Report(d), n)| == n
  {
    if n > 0 { RepeatLength(d, n - 1); }
  }

  /** Turning the shaft reports its steps divided by the threshold if and only if the threshold is at least two. */
  lemma ThresholdsThatDivide(d: Direction, threshold: int)
    requires d != Unexpected && threshold != 0
    ensures (forall n: nat :: |Run(Uniform(d, n), threshold).reports| == n / threshold) <==> threshold >= 2
  {
    hide Run, Uniform;
    if threshold >= 2 {
      forall n: nat
        ensures |Run(Uniform(d, n), threshold).reports| == n / threshold
      {
        UniformReports(d, n, threshold);
      }
    } else {
      var n: nat := if threshold == 1 then 1 else 2;
      UniformReports(d, n, threshold);
      assert RunLength(n, threshold) != n / threshold;
    }
  }

  // ---------------------------------------------------------------- consequences of the law

  /** How often r has been reported. */
  function CountOf(reports: seq<int>, r: int): nat {
    if reports == [] then 0 else CountOf(reports[..|reports| - 1], r) + if reports[|reports| - 1] == r then 1 else 0
  }

  lemma {:induction false} CountAppend(a: seq<int>, b: seq<int>, r: int)
    ensures CountOf(a + b, r) == CountOf(a, r) + CountOf(b, r)
    decreases |b|
  {
    if b == [] {
      assert a + b == a;
    } else {
      assert (a + b)[..|a + b| - 1] == a + b[..|b| - 1];
      CountAppend(a, b[..|b| - 1], r);
    }
  }

  lemma {:induction false} CountRepeat(d: Direction, n: nat, r: int)
    ensures CountOf(Repeat(Report(d), n), r) == if Report(d) == [r] then n else 0
  {
    if n > 0 {
      CountRepeat(d, n - 1, r);
      CountAppend(Repeat(Report(d), n - 1), Report(d), r);
      assert Report(d) == [] || Report(d)[..0] == [];
    }
  }

  /** Contact bounce: as long as no direction repeats, nothing is ever reported. */
  lemma {:induction false} BounceIsSilent(ds: seq<Direction>, threshold: int)
    requires forall i :: 0 <= i < |ds| - 1 ==> ds[i] != ds[i + 1]
    ensures Run(ds, threshold).reports == []
  {
    if ds != [] {
      BounceIsSilent(ds[..|ds| - 1], threshold);
      RunLengthLaw(ds[..|ds| - 1], threshold);
    }
  }

  function Swap(d: Direction): Direction {
    match d
    case Clockwise => Anticlockwise
    case Anticlockwise => Clockwise
    case Unexpected => Unexpected
  }

  /** The directions of a path walked backwards. */
  function Backwards(ds: seq<Direction>): (b: seq<Direction>)
    ensures |b| == |ds|
  {
    seq(|ds|, i requires 0 <= i < |ds| => Swap(ds[|ds| - 1 - i]))
  }

  lemma StepReversed(p: Pins, q: Pins)
    ensures DirectionOf(q, p) == Swap(DirectionOf(p, q))
  {
  }

  /** Sampling the same path in the opposite order yields the directions backwards. */
  lemma PathReversed(samples: seq<Pins>, reversed: seq<Pins>)
    requires |samples| == |reversed|
    requires forall i :: 0 <= i < |samples| ==> reversed[i] == samples[|samples| - 1 - i]
    ensures Directions(reversed) == Backwards(Directions(samples))
  {
    hide DirectionOf, Swap;
    forall i | 0 <= i < |samples| - 1
      ensures Directions(reversed)[i] == Backwards(Directions(samples))[i]
    {
      MoveReversed(samples, reversed, i);
    }
  }

  lemma MoveReversed(samples: seq<Pins>, reversed: seq<Pins>, i: nat)
    requires |samples| == |reversed| && i < |samples| - 1
    requires forall i :: 0 <= i < |samples| ==> reversed[i] == samples[|samples| - 1 - i]
    ensures Directions(reversed)[i] == Swap(Directions(samples)[|samples| - 2 - i])
  {
    hide DirectionOf, Swap;
    var n := |samples|;
    StepReversed(samples[n - 2 - i], samples[n - 1 - i]);
    assert reversed[i] == samples[n - 1 - i];
    assert reversed[i + 1] == samples[n - 1 - (i + 1)];
  }

  /** Runs that do not touch report independently. */
  lemma {:induction false} RunsAppend(a: seq<Direction>, b: seq<Direction>, threshold: int)
    requires a == [] || b == [] || a[|a| - 1] != b[0]
    ensures RunReports(a + b, threshold) == RunReports(a, threshold) + RunReports(b, threshold)
    decreases |b|
  {
    hide TrailingRun, Repeat, RunLength, RunReports, Report;
    if b == [] {
      assert a + b == a;
      NoReports(threshold);
    } else {
      TrailingOfAppend(a, b);
      LastRun(a + b, threshold);
      LastRun(b, threshold);
      var n := TrailingRun(b);
      var c := b[..|b| - n];
      TakeAppended(a, b, n);
      assert c != [] ==> c[0] == b[0];
      RunsAppend(a, c, threshold);
      Associate(RunReports(a, threshold), RunReports(c, threshold),
                Repeat(Report(b[|b| - 1]), RunLength(n, threshold)));
    }
  }

  lemma TakeAppended(a: seq<Direction>, b: seq<Direction>, n: nat)
    requires n <= |b| && b != []
    ensures (a + b)[..|a + b| - n] == a + b[..|b| - n] && (a + b)[|a + b| - 1] == b[|b| - 1]
  {
  }

  lemma Associate(a: seq<int>, b: seq<int>, c: seq<int>)
    ensures (a + b) + c == a + (b + c)
  {
  }

  lemma {:induction false} TrailingOfAppend(a: seq<Direction>, b: seq<Direction>)
    requires b != [] && (a == [] || a[|a| - 1] != b[0])
    ensures TrailingRun(a + b) == TrailingRun(b)
    decreases |b|
  {
    var k := |b|;
    if k > 1 {
      assert (a + b)[..|a + b| - 1] == a + b[..k - 1];
      assert (a + b)[|a + b| - 2] == b[k - 2] && (a + b)[|a + b| - 1] == b[k - 1];
      if b[k - 2] == b[k - 1] {
        TrailingOfAppend(a, b[..k - 1]);
      }
    }
  }

  /** The last run of a sequence consists of equal directions and is preceded by another one. */
  lemma {:induction false} TrailingRunIs(ds: seq<Direction>)
    requires ds != []
    ensures var n := TrailingRun(ds);
            && (forall i :: |ds| - n <= i < |ds| ==> ds[i] == ds[|ds| - 1])
            && (n < |ds| ==> ds[|ds| - n - 1] != ds[|ds| - 1])
  {
    var k := |ds|;
    if k > 1 && ds[k - 2] == ds[k - 1] {
      TrailingRunIs(ds[..k - 1]);
    }
  }

  lemma {:induction false} UniformRun(ds: seq<Direction>, d: Direction)
    requires ds != [] && forall i :: 0 <= i < |ds| ==> ds[i] == d
    ensures TrailingRun(ds) == |ds|
  {
    if |ds| > 1 { UniformRun(ds[..|ds| - 1], d); }
  }

  /** Turning the shaft back along the same path reports as often, in the opposite direction. */
  lemma {:induction false} ReversalSwaps(ds: seq<Direction>, threshold: int, r: int)
    requires r != 0
    ensures CountOf(RunReports(Backwards(ds), threshold), r) == CountOf(RunReports(ds, threshold), -r)
    decreases |ds|
  {
    hide TrailingRun, RunLength, Repeat, CountOf, RunReports, Backwards;
    if ds == [] {
      assert Backwards(ds) == [];
      NoReports(threshold);
    } else {
      var n, last := TrailingRun(ds), ds[|ds| - 1];
      var p, k := ds[..|ds| - n], RunLength(TrailingRun(ds), threshold);
      LastRun(ds, threshold);
      FirstRunReversed(ds, threshold);
      ReversalSwaps(p, threshold, r);
      CountAppend(Repeat(Report(Swap(last)), k), RunReports(Backwards(p), threshold), r);
      CountAppend(RunReports(p, threshold), Repeat(Report(last), k), -r);
      CountRepeat(Swap(last), k, r);
      CountRepeat(last, k, -r);
    }
  }

  /** The last run becomes the first one, turned around. */
  lemma FirstRunReversed(ds: seq<Direction>, threshold: int)
    requires ds != []
    ensures RunReports(Backwards(ds), threshold)
         == Repeat(Report(Swap(ds[|ds| - 1])), RunLength(TrailingRun(ds), threshold))
            + RunReports(Backwards(ds[..|ds| - TrailingRun(ds)]), threshold)
  {
    hide TrailingRun, RunLength, Repeat, RunReports, Report, Swap;
    var n, last := TrailingRun(ds), ds[|ds| - 1];
    var p, run := ds[..|ds| - n], ds[|ds| - n..];
    TrailingRunIs(ds);
    assert Backwards(ds) == Backwards(run) + Backwards(p);
    assert p != [] ==> Backwards(p)[0] == Swap(ds[|ds| - n - 1]);
    SwapDiffers(ds[if p == [] then 0 else |ds| - n - 1], last);
    RunsAppend(Backwards(run), Backwards(p), threshold);
    UniformRun(Backwards(run), Swap(last));
    LastRun(Backwards(run), threshold);
    assert Backwards(run)[..0] == [];
    NoReports(threshold);
  }

  lemma NoReports(threshold: int)
    ensures RunReports([], threshold) == [] && forall r :: CountOf([], r) == 0
  {
  }

  lemma SwapDiffers(d: Direction, e: Direction)
    ensures Swap(d) == Swap(e) ==> d == e
  {
  }

  /** Sampling a path in the opposite order makes the decoder report as often, in the opposite direction. */
  lemma TurningBack(samples: seq<Pins>, reversed: seq<Pins>, threshold: int, r: int)
    requires |samples| == |reversed| && r != 0
    requires forall i :: 0 <= i < |samples| ==> reversed[i] == samples[|samples| - 1 - i]
    ensures CountOf(Run(Directions(reversed), threshold).reports, r)
         == CountOf(Run(Directions(samples), threshold).reports, -r)
  {
    hide *;
    PathReversed(samples, reversed);
    ReversalSwaps(Directions(samples), threshold, r);
    RunLengthLaw(Directions(samples), threshold);
    RunLengthLaw(Directions(reversed), threshold);
  }
}
