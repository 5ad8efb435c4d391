/**
  The per-CPU consumer loop of both `main.rs` files: each call of `read_events`
  either fails (logged, then the loop retries) or reports how many of the scratch
  buffers it filled and how many events were lost; a non-zero loss is only warned
  about, and the filled buffers `0..read` are then decoded in index order.

  The asynchronous ring-buffer read is replaced by a sequence of its outcomes, and
  the log by the sequence of entries the loop writes.
*/
module Consumer {
  import opened Bytes
  import opened Optional
  import opened Layout
  import opened Decode

  /** Which of the two programs' record layouts the loop decodes. */
  datatype Variant = Basic | Full

  /** One call of `read_events` on the scratch buffers. */
  datatype ReadOutcome =
    | ReadError
    | Events(read: nat, lost: nat, buffers: seq<seq<byte>>)
  {
    /** `read_events` never reports more filled buffers than it was given. */
    predicate Valid() {
      Events? ==> read <= |buffers|
    }
  }

  /** The entries the loop logs: `error!`, `warn!` and `info!` lines. */
  datatype LogEntry =
    | ReadFailed
    | Lost(count: nat)
    | Capture(event: CaptureEvent)
    | Source(report: BasicReport)

  predicate AllValid(outcomes: seq<ReadOutcome>)
  {
    forall k :: 0 <= k < |outcomes| ==> outcomes[k].Valid()
  }

  /** The entries one filled buffer produces: one entry, except that the full variant
      skips a buffer too short for its record without a word. */
  function DecodeBuffer(variant: Variant, host: Endian, buf: seq<byte>): (r: seq<LogEntry>)
    ensures |r| == (if variant == Full && |buf| < RustInfoSize then 0 else 1)
  {
    match variant
    case Full =>
      var e := DecodeCapture(host, buf);
      if e.Some? then [Capture(e.value)] else []
    case Basic => [Source(DecodeBasic(host, buf))]
  }

  /** A decoded entry, as opposed to a read error or a loss warning. */
  predicate IsDecoded(e: LogEntry)
  {
    e.Capture? || e.Source?
  }

  /** The entries a run of filled buffers produces, in buffer order. */
  function DecodeAll(variant: Variant, host: Endian, bufs: seq<seq<byte>>): seq<LogEntry>
  {
    if |bufs| == 0 then []
    else DecodeAll(variant, host, bufs[..|bufs| - 1]) + DecodeBuffer(variant, host, bufs[|bufs| - 1])
  }

  /** Decoding buffers only ever logs decoded entries, never an error or a loss. */
  lemma {:induction false} AllDecoded(variant: Variant, host: Endian, bufs: seq<seq<byte>>)
    ensures forall j :: 0 <= j < |DecodeAll(variant, host, bufs)| ==> IsDecoded(DecodeAll(variant, host, bufs)[j])
  {
    if |bufs| > 0 {
      AllDecoded(variant, host, bufs[..|bufs| - 1]);
      var a := DecodeAll(variant, host, bufs[..|bufs| - 1]);
      var b := DecodeBuffer(variant, host, bufs[|bufs| - 1]);
      assert forall j :: 0 <= j < |b| ==> IsDecoded(b[j]);
      forall j | 0 <= j < |a + b|
        ensures IsDecoded((a + b)[j])
      {
        if j < |a| {
          assert (a + b)[j] == a[j];
        } else {
          assert (a + b)[j] == b[j - |a|];
        }
      }
    }
  }

  /** One pass of the loop body: a failed read logs its error and nothing else, and a
      loss warning comes before anything decoded. */
  function Iteration(variant: Variant, host: Endian, o: ReadOutcome): (r: seq<LogEntry>)
    requires o.Valid()
    ensures o.ReadError? ==> r == [ReadFailed]
    ensures o.Events? && o.lost > 0 ==> |r| > 0 && r[0] == Lost(o.lost)
  {
    match o
    case ReadError => [ReadFailed]
    case Events(read, lost, buffers) =>
      (if lost > 0 then [Lost(lost)] else []) + DecodeAll(variant, host, buffers[..read])
  }

  /** The loop over a finite sequence of `read_events` outcomes: the passes' entries,
      one pass after the other. */
  function Run(variant: Variant, host: Endian, outcomes: seq<ReadOutcome>): seq<LogEntry>
    requires AllValid(outcomes)
  {
    if |outcomes| == 0 then []
    else Run(variant, host, outcomes[..|outcomes| - 1]) + Iteration(variant, host, outcomes[|outcomes| - 1])
  }

  lemma DecodeAllStep(variant: Variant, host: Endian, bufs: seq<seq<byte>>, i: nat)
    requires i < |bufs|
    ensures DecodeAll(variant, host, bufs[..i + 1]) == DecodeAll(variant, host, bufs[..i]) + DecodeBuffer(variant, host, bufs[i])
  {
    assert bufs[..i + 1][..i] == bufs[..i];
  }

  /** One more buffer adds its entries at the end of the log. */
  lemma DecodeAllSnoc(variant: Variant, host: Endian, bufs: seq<seq<byte>>, b: seq<byte>)
    ensures DecodeAll(variant, host, bufs + [b]) == DecodeAll(variant, host, bufs) + DecodeBuffer(variant, host, b)
  {
    assert (bufs + [b])[..|bufs|] == bufs;
  }

  /** The inner `for i in 0..events.read` loop over the filled buffers. */
  method DecodeBatch(variant: Variant, host: Endian, buffers: seq<seq<byte>>, read: nat) returns (log: seq<LogEntry>)
    requires read <= |buffers|
    ensures log == DecodeAll(variant, host, buffers[..read])
    ensures forall j :: 0 <= j < |log| ==> IsDecoded(log[j])
    ensures variant == Basic ==>
      && |log| == read
      && forall i :: 0 <= i < read ==> log[i] == Source(DecodeBasic(host, buffers[i]))
    ensures variant == Full ==> CapturesOf(host, log, LongEnough(buffers[..read]))
  {
    log := [];
    var i := 0;
    while i < read
      invariant i <= read
      invariant log == DecodeAll(variant, host, buffers[..i])
    {
      DecodeAllStep(variant, host, buffers, i);
      log := log + DecodeBuffer(variant, host, buffers[i]);
      i := i + 1;
    }
    AllDecoded(variant, host, buffers[..read]);
    if variant == Basic {
      BasicOneEntryPerBuffer(host, buffers[..read]);
    } else {
      FullCapturesLongBuffers(host, buffers[..read]);
    }
  }

  /** The loop body: report a failed read, or warn about losses and decode the batch. */
  method ConsumeBatch(variant: Variant, host: Endian, o: ReadOutcome) returns (log: seq<LogEntry>)
    requires o.Valid()
    ensures log == Iteration(variant, host, o)
    ensures o.ReadError? ==> log == [ReadFailed]
    ensures o.Events? && o.lost > 0 ==> |log| > 0 && log[0] == Lost(o.lost)
    ensures LostLogged(log) == (if o.Events? then o.lost else 0)
    ensures Decoded(log) == DecodeAll(variant, host, Filled(o))
  {
    LostIteration(variant, host, o);
    DecodedIteration(variant, host, o);
    if o.ReadError? {
      return [ReadFailed];
    }
    var warned: seq<LogEntry> := if o.lost > 0 then [Lost(o.lost)] else [];
    var decoded := DecodeBatch(variant, host, o.buffers, o.read);
    log := warned + decoded;
  }

  /** The outer `loop`, over the outcomes of successive `read_events` calls. */
  method Consume(variant: Variant, host: Endian, outcomes: seq<ReadOutcome>) returns (log: seq<LogEntry>)
    requires AllValid(outcomes)
    ensures log == Run(variant, host, outcomes)
    ensures Decoded(log) == DecodeAll(variant, host, AllRead(outcomes))
    ensures LostLogged(log) == LostReported(outcomes)
  {
    log := [];
    var k := 0;
    while k < |outcomes|
      invariant k <= |outcomes|
      invariant log == Run(variant, host, outcomes[..k])
    {
      var entries := ConsumeBatch(variant, host, outcomes[k]);
      assert outcomes[..k + 1][..k] == outcomes[..k];
      log := log + entries;
      k := k + 1;
    }
    assert outcomes[..k] == outcomes;
    DecodedInDeliveryOrder(variant, host, outcomes);
    LossesAllWarned(variant, host, outcomes);
  }

  // ---------------------------------------------------------------------------
  // Properties of the loop
  // ---------------------------------------------------------------------------

  /** In the basic variant every filled buffer yields exactly one entry (an address or
      a too-small warning), and entry i belongs to buffer i. */
  lemma {:induction false} BasicOneEntryPerBuffer(host: Endian, bufs: seq<seq<byte>>)
    ensures |DecodeAll(Basic, host, bufs)| == |bufs|
    ensures forall i :: 0 <= i < |bufs| ==> DecodeAll(Basic, host, bufs)[i] == Source(DecodeBasic(host, bufs[i]))
  {
    if |bufs| > 0 {
      BasicOneEntryPerBuffer(host, bufs[..|bufs| - 1]);
    }
  }

  /** The buffers long enough for the full decoder, in order. */
  function LongEnough(bufs: seq<seq<byte>>): (kept: seq<seq<byte>>)
    ensures forall j :: 0 <= j < |kept| ==> |kept[j]| >= RustInfoSize
  {
    if |bufs| == 0 then []
    else if |bufs[0]| >= RustInfoSize then [bufs[0]] + LongEnough(bufs[1..])
    else LongEnough(bufs[1..])
  }

  lemma {:induction false} LongEnoughAppend(bufs: seq<seq<byte>>, b: seq<byte>)
    ensures LongEnough(bufs + [b]) == LongEnough(bufs) + (if |b| >= RustInfoSize then [b] else [])
  {
    if |bufs| > 0 {
      assert (bufs + [b])[1..] == bufs[1..] + [b];
      LongEnoughAppend(bufs[1..], b);
    }
  }

  /** `log` is the captures of the buffers `kept`, one each, in order. */
  predicate CapturesOf(host: Endian, log: seq<LogEntry>, kept: seq<seq<byte>>)
    requires forall j :: 0 <= j < |kept| ==> |kept[j]| >= RustInfoSize
  {
    && |log| == |kept|
    && forall j :: 0 <= j < |kept| ==> log[j] == Capture(DecodeCapture(host, kept[j]).value)
  }

  lemma CapturesAppend(host: Endian, log: seq<LogEntry>, kept: seq<seq<byte>>, b: seq<byte>)
    requires forall j :: 0 <= j < |kept| ==> |kept[j]| >= RustInfoSize
    requires CapturesOf(host, log, kept)
    ensures var kept' := kept + (if |b| >= RustInfoSize then [b] else []);
      && (forall j :: 0 <= j < |kept'| ==> |kept'[j]| >= RustInfoSize)
      && CapturesOf(host, log + DecodeBuffer(Full, host, b), kept')
  {
    if |b| < RustInfoSize {
      assert kept + [] == kept;
      assert log + [] == log;
    } else {
      var log' := log + DecodeBuffer(Full, host, b);
      var kept' := kept + [b];
      forall j | 0 <= j < |kept'|
        ensures |kept'[j]| >= RustInfoSize
        ensures log'[j] == Capture(DecodeCapture(host, kept'[j]).value)
      {
        if j < |kept| {
          assert log'[j] == log[j] && kept'[j] == kept[j];
        }
      }
    }
  }

  /** In the full variant the entries are exactly the buffers of at least 36 bytes,
      decoded, in order; shorter buffers vanish without a trace. */
  lemma {:induction false} FullCapturesLongBuffers(host: Endian, bufs: seq<seq<byte>>)
    ensures CapturesOf(host, DecodeAll(Full, host, bufs), LongEnough(bufs))
  {
    if |bufs| > 0 {
      var init, last := bufs[..|bufs| - 1], bufs[|bufs| - 1];
      FullCapturesLongBuffers(host, init);
      assert bufs == init + [last];
      LongEnoughAppend(init, last);
      CapturesAppend(host, DecodeAll(Full, host, init), LongEnough(init), last);
    }
  }

  lemma {:induction false} DecodeAllAppend(variant: Variant, host: Endian, xs: seq<seq<byte>>, ys: seq<seq<byte>>)
    ensures DecodeAll(variant, host, xs + ys) == DecodeAll(variant, host, xs) + DecodeAll(variant, host, ys)
  {
    if |ys| > 0 {
      var init := ys[..|ys| - 1];
      assert (xs + ys)[..|xs + ys| - 1] == xs + init;
      DecodeAllAppend(variant, host, xs, init);
    } else {
      assert xs + ys == xs;
    }
  }

  lemma {:induction false} RunAppend(variant: Variant, host: Endian, xs: seq<ReadOutcome>, ys: seq<ReadOutcome>)
    requires AllValid(xs) && AllValid(ys)
    ensures AllValid(xs + ys)
    ensures Run(variant, host, xs + ys) == Run(variant, host, xs) + Run(variant, host, ys)
  {
    assert AllValid(xs + ys) by {
      forall k | 0 <= k < |xs + ys| ensures (xs + ys)[k].Valid() {
        if k >= |xs| {
          assert (xs + ys)[k] == ys[k - |xs|];
        }
      }
    }
    if |ys| > 0 {
      var init := ys[..|ys| - 1];
      assert (xs + ys)[..|xs + ys| - 1] == xs + init;
      RunAppend(variant, host, xs, init);
    } else {
      assert xs + ys == xs;
    }
  }

  /** A failed read logs one error and the loop carries on: what comes after is
      processed exactly as if the failure had not happened. */
  lemma ReadErrorContinues(variant: Variant, host: Endian, xs: seq<ReadOutcome>, ys: seq<ReadOutcome>)
    requires AllValid(xs) && AllValid(ys)
    ensures AllValid(xs + [ReadError] + ys)
    ensures Run(variant, host, xs + [ReadError] + ys) == Run(variant, host, xs) + [ReadFailed] + Run(variant, host, ys)
  {
    assert Run(variant, host, [ReadError]) == [ReadFailed];
    RunAppend(variant, host, xs, [ReadError]);
    RunAppend(variant, host, xs + [ReadError], ys);
  }

  /** The decoded entries of a log: everything but read errors and loss warnings. */
  function Decoded(log: seq<LogEntry>): seq<LogEntry>
  {
    if |log| == 0 then []
    else Decoded(log[..|log| - 1]) + (if IsDecoded(log[|log| - 1]) then [log[|log| - 1]] else [])
  }

  lemma {:induction false} DecodedAppend(xs: seq<LogEntry>, ys: seq<LogEntry>)
    ensures Decoded(xs + ys) == Decoded(xs) + Decoded(ys)
  {
    if |ys| > 0 {
      var init := ys[..|ys| - 1];
      assert (xs + ys)[..|xs + ys| - 1] == xs + init;
      DecodedAppend(xs, init);
    } else {
      assert xs + ys == xs;
    }
  }

  /** A log of decoded entries only is its own decoded part. */
  lemma {:induction false} DecodedOfDecodedOnly(log: seq<LogEntry>)
    requires forall j :: 0 <= j < |log| ==> IsDecoded(log[j])
    ensures Decoded(log) == log
  {
    if |log| > 0 {
      var init := log[..|log| - 1];
      DecodedOfDecodedOnly(init);
      assert log == init + [log[|log| - 1]];
    }
  }

  /** All buffers the reads filled, batch after batch, in delivery order. */
  function AllRead(outcomes: seq<ReadOutcome>): seq<seq<byte>>
    requires AllValid(outcomes)
  {
    if |outcomes| == 0 then []
    else
      AllRead(outcomes[..|outcomes| - 1]) + Filled(outcomes[|outcomes| - 1])
  }

  /** The buffers one read filled. */
  function Filled(o: ReadOutcome): seq<seq<byte>>
    requires o.Valid()
  {
    if o.Events? then o.buffers[..o.read] else []
  }

  lemma DecodedIteration(variant: Variant, host: Endian, o: ReadOutcome)
    requires o.Valid()
    ensures Decoded(Iteration(variant, host, o)) == DecodeAll(variant, host, Filled(o))
  {
    if o.Events? {
      var warn: seq<LogEntry> := if o.lost > 0 then [Lost(o.lost)] else [];
      DecodedAppend(warn, DecodeAll(variant, host, Filled(o)));
      AllDecoded(variant, host, Filled(o));
      DecodedOfDecodedOnly(DecodeAll(variant, host, Filled(o)));
      if o.lost > 0 {
        assert warn[..0] == [];
      }
    } else {
      assert [ReadFailed][..0] == [];
    }
  }

  /** Read errors and losses neither suppress nor reorder decoding: the decoded entries
      of the whole run are those of every filled buffer, in delivery order. */
  lemma {:induction false} DecodedInDeliveryOrder(variant: Variant, host: Endian, outcomes: seq<ReadOutcome>)
    requires AllValid(outcomes)
    ensures Decoded(Run(variant, host, outcomes)) == DecodeAll(variant, host, AllRead(outcomes))
  {
    if |outcomes| > 0 {
      var init := outcomes[..|outcomes| - 1];
      var last := outcomes[|outcomes| - 1];
      DecodedInDeliveryOrder(variant, host, init);
      DecodedAppend(Run(variant, host, init), Iteration(variant, host, last));
      DecodedIteration(variant, host, last);
      DecodeAllAppend(variant, host, AllRead(init), Filled(last));
    }
  }

  /** The sum of the loss counts the log warns about. */
  function LostLogged(log: seq<LogEntry>): nat
  {
    if |log| == 0 then 0
    else LostLogged(log[..|log| - 1]) + (if log[|log| - 1].Lost? then log[|log| - 1].count else 0)
  }

  /** The sum of the losses the reads reported. */
  function LostReported(outcomes: seq<ReadOutcome>): nat
  {
    if |outcomes| == 0 then 0
    else
      var last := outcomes[|outcomes| - 1];
      LostReported(outcomes[..|outcomes| - 1]) + (if last.Events? then last.lost else 0)
  }

  lemma {:induction false} LostLoggedAppend(xs: seq<LogEntry>, ys: seq<LogEntry>)
    ensures LostLogged(xs + ys) == LostLogged(xs) + LostLogged(ys)
  {
    if |ys| > 0 {
      var init := ys[..|ys| - 1];
      assert (xs + ys)[..|xs + ys| - 1] == xs + init;
      LostLoggedAppend(xs, init);
    } else {
      assert xs + ys == xs;
    }
  }

  /** A log of decoded entries only warns about no loss. */
  lemma {:induction false} NoLossInDecodedOnly(log: seq<LogEntry>)
    requires forall j :: 0 <= j < |log| ==> IsDecoded(log[j])
    ensures LostLogged(log) == 0
  {
    if |log| > 0 {
      NoLossInDecodedOnly(log[..|log| - 1]);
    }
  }

  /** Every lost event is warned about exactly once: the warnings add up to the total
      the reads reported. */
  lemma {:induction false} LossesAllWarned(variant: Variant, host: Endian, outcomes: seq<ReadOutcome>)
    requires AllValid(outcomes)
    ensures LostLogged(Run(variant, host, outcomes)) == LostReported(outcomes)
  {
    if |outcomes| > 0 {
      var init := outcomes[..|outcomes| - 1];
      var last := outcomes[|outcomes| - 1];
      LossesAllWarned(variant, host, init);
      LostLoggedAppend(Run(variant, host, init), Iteration(variant, host, last));
      LostIteration(variant, host, last);
    }
  }

  /** One pass warns about exactly the losses its read reported. */
  lemma LostIteration(variant: Variant, host: Endian, o: ReadOutcome)
    requires o.Valid()
    ensures LostLogged(Iteration(variant, host, o)) == (if o.Events? then o.lost else 0)
  {
    if o.Events? {
      var warn: seq<LogEntry> := if o.lost > 0 then [Lost(o.lost)] else [];
      var filled := o.buffers[..o.read];
      LostLoggedAppend(warn, DecodeAll(variant, host, filled));
      AllDecoded(variant, host, filled);
      NoLossInDecodedOnly(DecodeAll(variant, host, filled));
      if o.lost > 0 {
        assert warn[..0] == [];
      }
    } else {
      assert [ReadFailed][..0] == [];
    }
  }

  /** Buffers past `read` hold stale data from earlier calls; they never reach the log. */
  lemma StaleBuffersIgnored(variant: Variant, host: Endian, read: nat, lost: nat, bufs: seq<seq<byte>>, other: seq<seq<byte>>)
    requires read <= |bufs| && read <= |other| && bufs[..read] == other[..read]
    ensures Iteration(variant, host, Events(read, lost, bufs)) == Iteration(variant, host, Events(read, lost, other))
  {
  }
}
