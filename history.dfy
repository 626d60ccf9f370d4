/**
 * The per-metric rolling history: one bounded FIFO buffer per catalog entry,
 * fed by the ingest loop one accepted record at a time.
 */
module History {
  import opened Wrappers
  import Catalog
  import LineParser

  /** How many values each metric's buffer keeps. */
  const HISTORY_LEN: nat := 300

  /** The newest min(|s|, cap) values of `s`, oldest first. */
  function Window(s: seq<real>, cap: nat): (w: seq<real>)
    ensures |w| == if |s| < cap then |s| else cap
  {
    if |s| <= cap then s else s[|s| - cap..]
  }

  /**
   * One push onto a buffer of capacity `cap`: when the buffer already holds
   * `cap` values or more its front (oldest) value is popped first, then `x`
   * is appended at the back.
   */
  function PushBounded(buf: seq<real>, x: real, cap: nat): (r: seq<real>)
    ensures 0 < |r| <= |buf| + 1 && r[|r| - 1] == x
    ensures r[..|r| - 1] == buf[|buf| + 1 - |r|..]
    ensures |buf| < cap ==> |r| == |buf| + 1
    ensures 0 < |buf| && cap <= |buf| ==> |r| == |buf|
    ensures 0 < cap && |buf| <= cap ==> |r| <= cap
  {
    var kept := if |buf| >= cap && buf != [] then buf[1..] else buf;
    kept + [x]
  }

  /** Successive pushes of `xs`, first to last, onto `buf`. */
  function PushAll(buf: seq<real>, xs: seq<real>, cap: nat): seq<real>
    decreases |xs|
  {
    if xs == [] then buf else PushAll(PushBounded(buf, xs[0], cap), xs[1..], cap)
  }

  /** A push keeps the window law: the buffer stays the newest `cap` of everything pushed. */
  lemma PushWindow(s: seq<real>, x: real, cap: nat)
    requires 0 < cap
    ensures PushBounded(Window(s, cap), x, cap) == Window(s + [x], cap)
  {
    if |s| >= cap {
      assert Window(s, cap)[1..] + [x] == (s + [x])[|s| + 1 - cap..];
    }
  }

  /**
   * The FIFO law for any run of pushes: starting from the window of `s`,
   * pushing `xs` leaves the window of `s + xs`.
   */
  lemma {:induction false} PushAllWindow(s: seq<real>, xs: seq<real>, cap: nat)
    requires 0 < cap
    ensures PushAll(Window(s, cap), xs, cap) == Window(s + xs, cap)
    decreases |xs|
  {
    if xs != [] {
      var s' := s + [xs[0]];
      calc {
        PushAll(Window(s, cap), xs, cap);
        PushAll(PushBounded(Window(s, cap), xs[0], cap), xs[1..], cap);
        { PushWindow(s, xs[0], cap); }
        PushAll(Window(s', cap), xs[1..], cap);
        { PushAllWindow(s', xs[1..], cap); }
        Window(s' + xs[1..], cap);
        { assert s' + xs[1..] == s + xs; }
        Window(s + xs, cap);
      }
    }
  }

  /**
   * From an empty buffer, any run of pushes leaves at most `cap` values: the
   * newest min(n, cap) of them, in arrival order, the oldest evicted first.
   */
  lemma {:induction false} PushAllFromEmpty(xs: seq<real>, cap: nat)
    requires 0 < cap
    ensures PushAll([], xs, cap) == Window(xs, cap)
    ensures |PushAll([], xs, cap)| <= cap
  {
    var empty: seq<real> := [];
    PushAllWindow(empty, xs, cap);
    calc {
      PushAll(empty, xs, cap);
      { assert Window(empty, cap) == empty; }
      PushAll(Window(empty, cap), xs, cap);
      Window(empty + xs, cap);
      { assert empty + xs == xs; }
      Window(xs, cap);
    }
  }

  /** The metric history table: one buffer per catalog entry, updated in place. */
  class MetricHistory {
    /** Buffer i holds metric i's recent values, oldest first. */
    const buffers: array<seq<real>>
    /** Everything ever pushed to each buffer, oldest first. */
    ghost var Arrived: seq<seq<real>>

    ghost predicate Valid()
      reads this, buffers
    {
      && buffers.Length == Catalog.NUM_METRICS
      && |Arrived| == buffers.Length
      && forall i :: 0 <= i < buffers.Length ==> buffers[i] == Window(Arrived[i], HISTORY_LEN)
    }

    /** One empty buffer per metric. */
    constructor ()
      ensures Valid() && fresh(buffers)
      ensures forall i :: 0 <= i < buffers.Length ==> buffers[i] == [] && Arrived[i] == []
    {
      buffers := new seq<real>[Catalog.NUM_METRICS](_ => []);
      Arrived := seq(Catalog.NUM_METRICS, _ => []);
    }

    /**
     * Push one record: value i goes to buffer i, for every i the record
     * covers; no buffer sees another buffer's value.
     */
    method Ingest(vals: seq<real>)
      requires Valid()
      requires |vals| <= buffers.Length
      modifies this, buffers
      ensures Valid()
      ensures |Arrived| == |old(Arrived)|
      ensures forall i :: 0 <= i < |vals| ==> Arrived[i] == old(Arrived[i]) + [vals[i]]
      ensures forall i :: |vals| <= i < |Arrived| ==> Arrived[i] == old(Arrived[i])
      ensures forall i :: 0 <= i < |vals| ==> buffers[i] == PushBounded(old(buffers[i]), vals[i], HISTORY_LEN)
      ensures forall i :: |vals| <= i < buffers.Length ==> buffers[i] == old(buffers[i])
      ensures forall i :: 0 <= i < buffers.Length ==> |buffers[i]| <= HISTORY_LEN
    {
      for i := 0 to |vals|
        invariant Valid()
        invariant |Arrived| == |old(Arrived)|
        invariant forall j :: 0 <= j < i ==>
          Arrived[j] == old(Arrived[j]) + [vals[j]] && buffers[j] == PushBounded(old(buffers[j]), vals[j], HISTORY_LEN)
        invariant forall j :: i <= j < buffers.Length ==> Arrived[j] == old(Arrived[j]) && buffers[j] == old(buffers[j])
      {
        var buf := buffers[i];
        if |buf| >= HISTORY_LEN {
          buf := buf[1..];
        }
        buffers[i] := buf + [vals[i]];
        PushWindow(Arrived[i], vals[i], HISTORY_LEN);
        Arrived := Arrived[i := Arrived[i] + [vals[i]]];
      }
    }
  }

  /** What one blocking read of the daemon's output produced: a line, a read error, or the end of the stream. */
  datatype ReadOutcome = Line(text: string) | ReadFailed | EndOfStream

  /** The record a read yields: the parsed line, if it is a sample line. */
  function RecordOf(outcome: ReadOutcome, parseNum: string -> Option<real>): (r: Option<seq<real>>)
    ensures r.Some? <==> outcome.Line? && LineParser.IsSampleLine(outcome.text, parseNum)
    ensures r.Some? ==> |r.value| == Catalog.NUM_METRICS
  {
    match outcome
    case Line(text) => LineParser.ParseMetricLine(text, parseNum)
    case _ => None
  }

  /**
   * One pass of the ingest side of the main loop: a read line that parses is
   * pushed into the history, one value per metric, and, when logging is on,
   * handed to the logger. A line that does not parse, a failed read and
   * the end of the monitor's output change nothing and send nothing.
   */
  method IngestRead(h: MetricHistory, outcome: ReadOutcome, parseNum: string -> Option<real>, logging: bool)
    returns (sent: Option<seq<real>>)
    requires h.Valid()
    modifies h, h.buffers
    ensures h.Valid()
    ensures sent == if logging then RecordOf(outcome, parseNum) else None
    ensures RecordOf(outcome, parseNum).None? ==> h.Arrived == old(h.Arrived)
    ensures RecordOf(outcome, parseNum).Some? ==> forall i :: 0 <= i < Catalog.NUM_METRICS ==>
      h.Arrived[i] == old(h.Arrived[i]) + [RecordOf(outcome, parseNum).value[i]]
  {
    sent := None;
    var parsed := RecordOf(outcome, parseNum);
    if parsed.Some? {
      h.Ingest(parsed.value);
      if logging {
        sent := parsed;
      }
    }
  }
}
