/** The interrupt-driven pulse counter of the motor-encoder demo: a debounced
    edge handler that counts rising edges with wrap-around, a fallible
    initialisation, a snapshot read, a status report and a periodic
    pulse-rate sampler.

    The first half states the behaviour on values (the counter as a pair of
    count and last-edge time, a run of edges as a fold over their times) and
    proves the counting theorems about it; the second half is the class whose
    fields the C code updates in place, with each method tied to those
    functions. */
module MotorEncoder {
  import opened Esp

  const EncoderPin: int := 2             // GPIO_NUM_2
  const EncoderMaxCount: int := Int32Max // ENCODER_MAX_COUNT
  const EncoderDebounceUs: int := 1000   // ENCODER_DEBOUNCE_US

  /** A wrap limit the counter can use: the C code fixes it at INT32_MAX; any
      smaller positive limit behaves the same way, only sooner. */
  predicate ValidMax(max: int) { 1 <= max <= Int32Max }

  /** What the edge handler reads and writes: `pulse_count` and `last_pulse_time_us`. */
  datatype Counter = Counter(count: int, lastUs: int)

  /** An edge at `nowUs` is a bounce of the last accepted edge at `lastUs`. */
  predicate Bounces(nowUs: int, lastUs: int) {
    nowUs - lastUs < EncoderDebounceUs
  }

  /** The count after one accepted edge: one more, or 0 once the limit is reached. */
  function Increment(count: int, max: int): (r: int)
    requires ValidMax(max) && 0 <= count < max
    ensures 0 <= r < max
    ensures r == (count + 1) % max
    ensures IsInt32(count + 1)
  {
    if count + 1 >= max then
      ModUnique(count + 1, max, 1, 0);
      0
    else
      ModUnique(count + 1, max, 0, count + 1);
      count + 1
  }

  /** The counter after the edge handler has seen one edge at `nowUs`. */
  function AfterEdge(c: Counter, nowUs: int, max: int): (r: Counter)
    requires ValidMax(max) && 0 <= c.count < max
    ensures 0 <= r.count < max
    ensures Bounces(nowUs, c.lastUs) ==> r == c
    ensures !Bounces(nowUs, c.lastUs) ==> r.lastUs == nowUs
    ensures !Bounces(nowUs, c.lastUs) ==> (r.count == 0 <==> c.count + 1 >= max)
    ensures !Bounces(nowUs, c.lastUs) && c.count + 1 < max ==> r.count == c.count + 1
  {
    if Bounces(nowUs, c.lastUs) then c else Counter(Increment(c.count, max), nowUs)
  }

  /** The counter after the edge handler has seen edges at `times`, in order. */
  function AfterEdges(c: Counter, times: seq<int>, max: int): (r: Counter)
    requires ValidMax(max) && 0 <= c.count < max
    ensures 0 <= r.count < max
    decreases |times|
  {
    if times == [] then c else AfterEdges(AfterEdge(c, times[0], max), times[1..], max)
  }

  /** How many of the edges at `times` the handler accepts, starting from a
      last accepted edge at `lastUs`. */
  function AcceptedEdges(lastUs: int, times: seq<int>): (n: nat)
    ensures n <= |times|
    decreases |times|
  {
    if times == [] then 0
    else if Bounces(times[0], lastUs) then AcceptedEdges(lastUs, times[1..])
    else 1 + AcceptedEdges(times[0], times[1..])
  }

  /** Every edge comes at least the debounce window after the one before it,
      and the first at least the window after `startUs`. */
  predicate Spaced(startUs: int, times: seq<int>)
    decreases |times|
  {
    times == [] || (!Bounces(times[0], startUs) && Spaced(times[0], times[1..]))
  }

  lemma {:induction false} MulAtLeast(d: int, m: int)
    requires d >= 1 && m >= 1
    ensures d * m >= m
  {
    if d > 1 {
      MulAtLeast(d - 1, m);
      assert d * m == (d - 1) * m + m;
    }
  }

  /** Euclidean division has a unique remainder. */
  lemma ModUnique(x: int, m: int, q: int, r: int)
    requires m >= 1 && 0 <= r < m && x == q * m + r
    ensures x % m == r
  {
    var q', r' := x / m, x % m;
    assert (q - q') * m == r' - r;
    if q > q' {
      MulAtLeast(q - q', m);
    } else if q < q' {
      MulAtLeast(q' - q, m);
    }
  }

  lemma ModAfterIncrement(count: int, n: nat, max: int)
    requires ValidMax(max) && 0 <= count < max
    ensures (Increment(count, max) + n) % max == (count + 1 + n) % max
  {
    if count + 1 == max {
      var q, r := n / max, n % max;
      assert n + max == (q + 1) * max + r;
      ModUnique(n + max, max, q + 1, r);
    } else {
      assert Increment(count, max) == count + 1;
    }
  }

  /** One accepted edge moves one unit from the accepted-edge count into the
      counter, which leaves their sum unchanged modulo the limit. */
  lemma AcceptedStep(c: Counter, times: seq<int>, max: int)
    requires ValidMax(max) && 0 <= c.count < max
    requires times != [] && !Bounces(times[0], c.lastUs)
    ensures (AfterEdge(c, times[0], max).count + AcceptedEdges(times[0], times[1..])) % max
            == (c.count + AcceptedEdges(c.lastUs, times)) % max
  {
    var n := AcceptedEdges(times[0], times[1..]);
    assert AcceptedEdges(c.lastUs, times) == 1 + n;
    ModAfterIncrement(c.count, n, max);
  }

  /** Whatever the edge times, the count is the initial count plus the number
      of accepted edges, modulo the limit. */
  lemma {:induction false} CountIsAcceptedModMax(c: Counter, times: seq<int>, max: int)
    requires ValidMax(max) && 0 <= c.count < max
    ensures AfterEdges(c, times, max).count == (c.count + AcceptedEdges(c.lastUs, times)) % max
    decreases |times|
  {
    if times == [] {
      ModUnique(c.count, max, 0, c.count);
    } else {
      var c' := AfterEdge(c, times[0], max);
      CountIsAcceptedModMax(c', times[1..], max);
      assert AfterEdges(c, times, max) == AfterEdges(c', times[1..], max);
      if !Bounces(times[0], c.lastUs) {
        AcceptedStep(c, times, max);
      } else {
        assert c' == c && AcceptedEdges(c.lastUs, times) == AcceptedEdges(c.lastUs, times[1..]);
      }
    }
  }

  /** Edges spaced by at least the debounce window are all accepted. */
  lemma {:induction false} SpacedEdgesAllAccepted(startUs: int, times: seq<int>)
    requires Spaced(startUs, times)
    ensures AcceptedEdges(startUs, times) == |times|
    decreases |times|
  {
    if times != [] {
      SpacedEdgesAllAccepted(times[0], times[1..]);
    }
  }

  /** After spaced edges the last accepted edge is the last one fed. */
  lemma {:induction false} SpacedEdgesLastTime(c: Counter, times: seq<int>, max: int)
    requires ValidMax(max) && 0 <= c.count < max
    requires Spaced(c.lastUs, times)
    ensures AfterEdges(c, times, max).lastUs == if times == [] then c.lastUs else times[|times| - 1]
    decreases |times|
  {
    if times != [] {
      SpacedEdgesLastTime(AfterEdge(c, times[0], max), times[1..], max);
    }
  }

  /** The counting theorem: from the freshly initialised counter (count 0,
      last edge at the initialisation time t0), N spaced edges leave the count
      at N modulo the limit. */
  lemma SpacedEdgesCountModMax(t0: int, times: seq<int>, max: int)
    requires ValidMax(max)
    requires Spaced(t0, times)
    ensures AfterEdges(Counter(0, t0), times, max).count == |times| % max
  {
    CountIsAcceptedModMax(Counter(0, t0), times, max);
    SpacedEdgesAllAccepted(t0, times);
  }

  /** Edges that all come within the debounce window of the last accepted
      edge change nothing: neither the count nor the last edge time. */
  lemma {:induction false} BounceBurstIgnored(c: Counter, times: seq<int>, max: int)
    requires ValidMax(max) && 0 <= c.count < max
    requires forall i :: 0 <= i < |times| ==> Bounces(times[i], c.lastUs)
    ensures AfterEdges(c, times, max) == c
    decreases |times|
  {
    if times != [] {
      assert Bounces(times[0], c.lastUs);
      BounceBurstIgnored(c, times[1..], max);
    }
  }

  /** What the rate sampler reports as `count_diff` after `k` accepted edges
      since its last sample: `k` itself, or `k - max` (negative) exactly when
      the counter wrapped in between, as long as fewer than `max` edges came. */
  lemma CountDiffAfterEdges(c: Counter, times: seq<int>, max: int)
    requires ValidMax(max) && 0 <= c.count < max
    requires AcceptedEdges(c.lastUs, times) < max
    ensures var k := AcceptedEdges(c.lastUs, times);
            var diff := AfterEdges(c, times, max).count - c.count;
            && (c.count + k < max ==> diff == k)
            && (c.count + k >= max ==> diff == k - max)
            && (diff < 0 <==> c.count + k >= max)
  {
    var k := AcceptedEdges(c.lastUs, times);
    CountIsAcceptedModMax(c, times, max);
    if c.count + k >= max {
      ModUnique(c.count + k, max, 1, c.count + k - max);
    } else {
      ModUnique(c.count + k, max, 0, c.count + k);
    }
  }

  /** `current_time - last_time` on `uint32_t` tick counts: modular subtraction. */
  function ElapsedTicks(nowTick: int, lastTick: int): (e: int)
    requires IsU32(nowTick) && IsU32(lastTick)
    ensures IsU32(e)
    ensures (lastTick + e) % U32Modulus == nowTick
    ensures nowTick >= lastTick ==> e == nowTick - lastTick
    ensures nowTick < lastTick ==> e == nowTick - lastTick + U32Modulus
  {
    (nowTick - lastTick) % U32Modulus
  }

  /** The driver calls `encoder_init` makes, in the order it makes them. */
  datatype DriverCall = GpioConfig | InstallIsrService | IsrHandlerAdd

  /** What `encoder_init` decides from the driver results: the code it
      returns, the calls it made and whether the ISR service counts as
      installed afterwards. */
  datatype InitOutcome = InitOutcome(ret: EspErr, calls: seq<DriverCall>, serviceInstalled: bool)

  /** The result each driver call reports. */
  function CallResult(call: DriverCall, gpioConfigResult: EspErr, installResult: EspErr, handlerAddResult: EspErr): EspErr {
    match call
    case GpioConfig => gpioConfigResult
    case InstallIsrService => installResult
    case IsrHandlerAdd => handlerAddResult
  }

  /** The ISR-service install step succeeds on ESP_OK and also on
      ESP_ERR_INVALID_STATE (the service was installed by someone else). */
  predicate InstallAccepted(installResult: EspErr) {
    installResult == EspOk || installResult == EspErrInvalidState
  }

  function InitPlan(installed: bool, gpioConfigResult: EspErr, installResult: EspErr, handlerAddResult: EspErr): (o: InitOutcome)
    // success exactly when every step succeeds
    ensures o.ret == EspOk <==>
              gpioConfigResult == EspOk && (installed || InstallAccepted(installResult)) && handlerAddResult == EspOk
    // the calls come in order, the install only while not yet installed, and stop at the first failure
    ensures o.calls == [GpioConfig]
                       + (if InstallIsrService in o.calls then [InstallIsrService] else [])
                       + (if IsrHandlerAdd in o.calls then [IsrHandlerAdd] else [])
    ensures InstallIsrService in o.calls <==> gpioConfigResult == EspOk && !installed
    ensures IsrHandlerAdd in o.calls <==> gpioConfigResult == EspOk && (installed || InstallAccepted(installResult))
    // the code returned is that of the last call made
    ensures o.ret == CallResult(o.calls[|o.calls| - 1], gpioConfigResult, installResult, handlerAddResult)
    // ESP_ERR_INVALID_STATE counts as installed; a failed install leaves the flag as it was
    ensures o.serviceInstalled <==> installed || (gpioConfigResult == EspOk && InstallAccepted(installResult))
  {
    if gpioConfigResult != EspOk then InitOutcome(gpioConfigResult, [GpioConfig], installed)
    else if !installed && !InstallAccepted(installResult) then
      InitOutcome(installResult, [GpioConfig, InstallIsrService], false)
    else
      var calls := if installed then [GpioConfig, IsrHandlerAdd] else [GpioConfig, InstallIsrService, IsrHandlerAdd];
      InitOutcome(handlerAddResult, calls, true)
  }

  /** What `encoder_print_status` reports when the encoder is initialised. */
  datatype StatusReport = StatusReport(pin: int, count: int)

  /** The integer part of what `encoder_print_pulse_rate` logs. */
  datatype RateReport = RateReport(countDiff: int, elapsedTicks: int)

  /** `encoder_state` together with the function-static variables of
      `encoder_init` (`isr_service_installed`) and `encoder_print_pulse_rate`
      (`last_count`, `last_time`). The limit `maxCount` stands for
      ENCODER_MAX_COUNT. */
  class Encoder {
    const encoderPin: int
    const maxCount: int
    var pulseCount: int
    var lastPulseTimeUs: int
    var initialized: bool
    var isrServiceInstalled: bool
    var lastCount: int
    var lastTime: int

    ghost predicate Valid()
      reads this
    {
      && ValidMax(maxCount)
      && 0 <= pulseCount < maxCount
      && 0 <= lastCount < maxCount
      && IsU32(lastTime)
    }

    /** The part of the state the edge handler works on. */
    function State(): Counter
      reads this
    {
      Counter(pulseCount, lastPulseTimeUs)
    }

    /** The static initialiser of `encoder_state` and the function statics. */
    constructor (max: int)
      requires ValidMax(max)
      ensures Valid()
      ensures encoderPin == EncoderPin && maxCount == max
      ensures pulseCount == 0 && lastPulseTimeUs == 0 && !initialized
      ensures !isrServiceInstalled && lastCount == 0 && lastTime == 0
    {
      encoderPin := EncoderPin;
      maxCount := max;
      pulseCount := 0;
      lastPulseTimeUs := 0;
      initialized := false;
      isrServiceInstalled := false;
      lastCount := 0;
      lastTime := 0;
    }

    /** `encoder_isr_handler`, taking the clock reading `nowUs` as a parameter. */
    method HandleEdge(nowUs: int)
      requires Valid()
      modifies this`pulseCount, this`lastPulseTimeUs
      ensures Valid()
      ensures State() == AfterEdge(old(State()), nowUs, maxCount)
    {
      if nowUs - lastPulseTimeUs < EncoderDebounceUs {
        return;
      }
      lastPulseTimeUs := nowUs;
      assert IsInt32(pulseCount + 1);
      pulseCount := pulseCount + 1;
      if pulseCount >= maxCount {
        pulseCount := 0;
      }
    }

    /** `encoder_init`: the three driver results and the clock reading taken
        after them are parameters. */
    method Init(gpioConfigResult: EspErr, installResult: EspErr, handlerAddResult: EspErr, nowUs: int)
      returns (ret: EspErr, calls: seq<DriverCall>)
      requires Valid()
      modifies this`pulseCount, this`lastPulseTimeUs, this`initialized, this`isrServiceInstalled
      ensures Valid()
      ensures var o := InitPlan(old(isrServiceInstalled), gpioConfigResult, installResult, handlerAddResult);
              ret == o.ret && calls == o.calls && isrServiceInstalled == o.serviceInstalled
      ensures ret == EspOk ==> State() == Counter(0, nowUs) && initialized
      ensures ret != EspOk ==> State() == old(State()) && initialized == old(initialized)
    {
      calls := [GpioConfig];
      ret := gpioConfigResult;
      if ret != EspOk {
        return;
      }
      if !isrServiceInstalled {
        calls := calls + [InstallIsrService];
        ret := installResult;
        if ret != EspOk && ret != EspErrInvalidState {
          return;
        }
        isrServiceInstalled := true;
      }
      calls := calls + [IsrHandlerAdd];
      ret := handlerAddResult;
      if ret != EspOk {
        return;
      }
      pulseCount := 0;
      lastPulseTimeUs := nowUs;
      initialized := true;
    }

    /** `encoder_get_count`: a snapshot of the count that changes nothing. */
    method GetCount() returns (count: int)
      requires Valid()
      ensures count == pulseCount
      ensures 0 <= count < maxCount
    {
      count := pulseCount;
    }

    /** `encoder_print_status`: nothing is read before initialisation. */
    method PrintStatus() returns (status: Option<StatusReport>)
      requires Valid()
      ensures status.None? <==> !initialized
      ensures status.Some? ==> status.value == StatusReport(encoderPin, pulseCount)
    {
      if !initialized {
        return None;
      }
      var count := GetCount();
      status := Some(StatusReport(encoderPin, count));
    }

    /** `encoder_print_pulse_rate`: `currentTime` is the tick count and
        `periodTicks` is `pdMS_TO_TICKS(time_period_ms)`. */
    method PrintPulseRate(currentTime: int, periodTicks: int) returns (report: Option<RateReport>)
      requires Valid() && IsU32(currentTime) && IsU32(periodTicks)
      modifies this`lastCount, this`lastTime
      ensures Valid()
      ensures var fires := initialized && ElapsedTicks(currentTime, old(lastTime)) >= periodTicks;
              && (!fires ==> report == None && lastCount == old(lastCount) && lastTime == old(lastTime))
              && (fires ==> && report == Some(RateReport(pulseCount - old(lastCount), ElapsedTicks(currentTime, old(lastTime))))
                            && lastCount == pulseCount && lastTime == currentTime)
    {
      if !initialized {
        return None;
      }
      var elapsed := (currentTime - lastTime) % U32Modulus;
      if elapsed >= periodTicks {
        var currentCount := GetCount();
        var countDiff := currentCount - lastCount;
        assert IsInt32(countDiff);
        report := Some(RateReport(countDiff, elapsed));
        lastCount := currentCount;
        lastTime := currentTime;
      } else {
        report := None;
      }
    }
  }
}
