/** Clients of the `Encoder` class: the input line delivering a run of edges
    to the handler, and runs of the encoder (debounce, wrap, re-init, status,
    rate sampling), proved from the class contracts alone. */
module EncoderScenarios {
  import opened Esp
  import opened MotorEncoder

  /** The input line delivers edges at `times`, one handler run per edge. */
  method DeliverEdges(e: Encoder, times: seq<int>)
    requires e.Valid()
    modifies e`pulseCount, e`lastPulseTimeUs
    ensures e.Valid()
    ensures e.State() == AfterEdges(old(e.State()), times, e.maxCount)
  {
    var i := 0;
    while i < |times|
      invariant 0 <= i <= |times|
      invariant e.Valid()
      invariant AfterEdges(e.State(), times[i..], e.maxCount) == AfterEdges(old(e.State()), times, e.maxCount)
    {
      assert times[i..][1..] == times[i + 1..];
      e.HandleEdge(times[i]);
      i := i + 1;
    }
  }

  /** After a successful init at `t0`, spaced edges leave the count at their
      number modulo the limit, whatever the limit. */
  method CountSpacedEdges(max: int, t0: int, times: seq<int>) returns (count: int)
    requires ValidMax(max)
    requires Spaced(t0, times)
    ensures count == |times| % max
  {
    var e := new Encoder(max);
    var ret, calls := e.Init(EspOk, EspOk, EspOk, t0);
    DeliverEdges(e, times);
    SpacedEdgesCountModMax(t0, times, max);
    count := e.GetCount();
  }

  /** Five edges 2 ms apart count 5; an edge 0.5 ms later is a bounce; an
      edge 1.5 ms after the last accepted one counts again. */
  method DebounceScenario() {
    var e := new Encoder(EncoderMaxCount);
    var ret, calls := e.Init(EspOk, EspOk, EspOk, 0);
    assert ret == EspOk && calls == [GpioConfig, InstallIsrService, IsrHandlerAdd];
    e.HandleEdge(2000);
    e.HandleEdge(4000);
    e.HandleEdge(6000);
    e.HandleEdge(8000);
    e.HandleEdge(10000);
    var count := e.GetCount();
    assert count == 5;
    e.HandleEdge(10500);
    count := e.GetCount();
    assert count == 5;
    e.HandleEdge(11500);
    count := e.GetCount();
    assert count == 6;
  }

  /** The debounce window starts at the last accepted edge, not at the last
      edge: a chain of edges 600 µs apart counts every second one. */
  method BounceChainScenario() {
    var e := new Encoder(EncoderMaxCount);
    var ret, calls := e.Init(EspOk, EspOk, EspOk, 0);
    DeliverEdges(e, [600, 1200, 1800, 2400]);
    var count := e.GetCount();
    assert count == 2;
  }

  /** With a limit of 10 the tenth spaced edge wraps the count to 0. */
  method WrapScenario() {
    var e := new Encoder(10);
    var ret, calls := e.Init(EspOk, EspOk, EspOk, 0);
    DeliverEdges(e, [1000, 2000, 3000, 4000, 5000, 6000, 7000, 8000, 9000]);
    var count := e.GetCount();
    assert count == 9;
    e.HandleEdge(10000);
    count := e.GetCount();
    assert count == 0;
  }

  /** A second init finds the ISR service installed and does not install it
      again; a failing handler registration leaves the counter alone. */
  method ReinitScenario() {
    var e := new Encoder(EncoderMaxCount);
    var ret, calls := e.Init(EspOk, EspErrInvalidState, EspOk, 0);
    assert ret == EspOk && e.isrServiceInstalled;
    e.HandleEdge(5000);
    ret, calls := e.Init(EspOk, EspFail, EspFail, 9000);
    assert ret == EspFail && calls == [GpioConfig, IsrHandlerAdd];
    var count := e.GetCount();
    assert count == 1 && e.initialized;
  }

  /** A status report before init carries no count. */
  method StatusBeforeInitScenario() {
    var e := new Encoder(EncoderMaxCount);
    var status := e.PrintStatus();
    assert status == None;
    var ret, calls := e.Init(EspOk, EspOk, EspFail, 0);
    status := e.PrintStatus();
    assert status == None;
  }

  /** A successful re-init resets the pulse count but not the sampler's
      `last_count`, so the next sample reports a negative `count_diff`
      although the counter never wrapped. */
  method ReinitRateScenario() {
    var e := new Encoder(EncoderMaxCount);
    var ret, calls := e.Init(EspOk, EspOk, EspOk, 0);
    DeliverEdges(e, [1000, 2000, 3000]);
    var report := e.PrintPulseRate(1000, 1000);
    assert report == Some(RateReport(3, 1000));
    ret, calls := e.Init(EspOk, EspOk, EspOk, 4000);
    assert ret == EspOk;
    e.HandleEdge(5000);
    report := e.PrintPulseRate(2000, 1000);
    assert report == Some(RateReport(-2, 1000));
  }

  /** The sampler reports once per period; a second call at the same tick
      does not fire when the period is at least one tick, and does fire, with
      zero elapsed ticks, when the period rounds down to zero ticks. */
  method RateScenario() {
    var e := new Encoder(EncoderMaxCount);
    var ret, calls := e.Init(EspOk, EspOk, EspOk, 0);
    DeliverEdges(e, [1000, 2000, 3000]);
    var report := e.PrintPulseRate(500, 1000);
    assert report == None;
    report := e.PrintPulseRate(1000, 1000);
    assert report == Some(RateReport(3, 1000));
    report := e.PrintPulseRate(1000, 1000);
    assert report == None;
    report := e.PrintPulseRate(1000, 0);
    assert report == Some(RateReport(0, 0));
  }
}
