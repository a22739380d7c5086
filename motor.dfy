/** `drive_motor` of the motor and motor-encoder demos: validate a speed,
    map a direction to the duties of the two PWM channels that drive the
    H-bridge, and fold the driver results into one `esp_err_t` with `|=`. */
module Motor {
  import opened Esp

  const MaxDuty: int := 1023      // MAX_DUTY = (1 << LEDC_TIMER_10_BIT) - 1
  const ChannelPin1: nat := 0     // LEDC_CHANNEL_0, motor pin 1
  const ChannelPin2: nat := 1     // LEDC_CHANNEL_1, motor pin 2

  /** The LEDC driver calls `drive_motor` issues. */
  datatype LedcCall = SetDuty(channel: nat, duty: int) | UpdateDuty(channel: nat)

  predicate ValidSpeed(speed: int) { 0 <= speed <= MaxDuty }

  /** Set and latch channel 1 to `duty1`, then channel 2 to `duty2`. */
  function ChannelWrites(duty1: int, duty2: int): seq<LedcCall> {
    [SetDuty(ChannelPin1, duty1), UpdateDuty(ChannelPin1), SetDuty(ChannelPin2, duty2), UpdateDuty(ChannelPin2)]
  }

  /** The writes drive at most one channel, and only with valid duties. */
  predicate DrivesAtMostOne(calls: seq<LedcCall>) {
    && (forall i :: 0 <= i < |calls| && calls[i].SetDuty? ==> ValidSpeed(calls[i].duty))
    && (forall i, j :: 0 <= i < j < |calls| && calls[i].SetDuty? && calls[j].SetDuty? && calls[i].duty != 0 ==> calls[j].duty == 0)
  }

  lemma ChannelWritesDriveAtMostOne(duty1: int, duty2: int)
    requires ValidSpeed(duty1) && ValidSpeed(duty2) && (duty1 == 0 || duty2 == 0)
    ensures DrivesAtMostOne(ChannelWrites(duty1, duty2))
  {
  }

  /** `ret = ESP_OK; ret |= r0; ret |= r1; ...` over the results in call order. */
  function OrAll(results: seq<EspErr>): EspErr
    decreases |results|
  {
    if results == [] then EspOk else OrAll(results[..|results| - 1]) | results[|results| - 1]
  }

  /** The folded result is ESP_OK exactly when every call returned ESP_OK. */
  lemma {:induction false} OrAllOkIff(results: seq<EspErr>)
    ensures OrAll(results) == EspOk <==> forall i :: 0 <= i < |results| ==> results[i] == EspOk
    decreases |results|
  {
    if results != [] {
      var init := results[..|results| - 1];
      OrAllOkIff(init);
      assert forall i :: 0 <= i < |init| ==> init[i] == results[i];
    }
  }

  /** One more `ret |= r` step. */
  lemma OrAllPrefix(rs: seq<EspErr>, n: nat)
    requires 0 < n <= |rs|
    ensures OrAll(rs[..n]) == OrAll(rs[..n - 1]) | rs[n - 1]
  {
    assert rs[..n][..n - 1] == rs[..n - 1];
  }

  lemma OrAllFour(rs: seq<EspErr>)
    requires |rs| == 4
    ensures OrAll(rs) == EspOk | rs[0] | rs[1] | rs[2] | rs[3]
  {
    assert rs[..0] == [];
    OrAllPrefix(rs, 1);
    OrAllPrefix(rs, 2);
    OrAllPrefix(rs, 3);
    OrAllPrefix(rs, 4);
    assert rs[..4] == rs;
  }

  /** `drive_motor(direction, speed)`: `driverResults[i]` is what the i-th
      LEDC call would return. The result is ESP_ERR_INVALID_ARG for a speed
      outside [0, MAX_DUTY]; otherwise the OR of the results of the calls made
      (none for a direction other than 0, 1 and -1). */
  method DriveMotor(direction: int, speed: int, driverResults: seq<EspErr>) returns (ret: EspErr, calls: seq<LedcCall>)
    requires |driverResults| == 4
    ensures !ValidSpeed(speed) ==> ret == EspErrInvalidArg && calls == []
    ensures ValidSpeed(speed) && direction == 0 ==> calls == ChannelWrites(0, 0)
    ensures ValidSpeed(speed) && direction == 1 ==> calls == ChannelWrites(speed, 0)
    ensures ValidSpeed(speed) && direction == -1 ==> calls == ChannelWrites(0, speed)
    ensures ValidSpeed(speed) && direction != 0 && direction != 1 && direction != -1 ==> calls == []
    ensures ValidSpeed(speed) ==> ret == OrAll(driverResults[..|calls|])
    ensures ValidSpeed(speed) ==> (ret == EspOk <==> forall i :: 0 <= i < |calls| ==> driverResults[i] == EspOk)
    ensures DrivesAtMostOne(calls)
  {
    if speed < 0 || speed > MaxDuty {
      return EspErrInvalidArg, [];
    }
    ret := EspOk;
    calls := [];
    var duty1, duty2 := 0, 0;
    if direction == 1 {
      duty1 := speed;
    } else if direction == -1 {
      duty2 := speed;
    } else if direction != 0 {
      assert driverResults[..0] == [];
      return;
    }
    ret := ret | driverResults[0];
    ret := ret | driverResults[1];
    ret := ret | driverResults[2];
    ret := ret | driverResults[3];
    calls := ChannelWrites(duty1, duty2);
    ChannelWritesDriveAtMostOne(duty1, duty2);
    assert driverResults[..|calls|] == driverResults;
    assert ret == OrAll(driverResults) by {
      OrAllFour(driverResults);
    }
    assert ret == EspOk <==> forall i :: 0 <= i < |calls| ==> driverResults[i] == EspOk by {
      OrAllOkIff(driverResults);
    }
  }

  /** The (direction, speed) commands of the demo loops: the motor demo and the motor-encoder demo. */
  const MotorDemoCommands: seq<(int, int)> :=
    [(1, 256), (1, 512), (1, 1023), (0, 0), (-1, 256), (-1, 512), (-1, 1023), (0, 0)]
  const EncoderDemoCommands: seq<(int, int)> :=
    [(1, 512), (1, 768), (1, 1023), (0, 0), (-1, 512), (-1, 768), (-1, 1023), (0, 0)]

  /** Every command of both demo loops passes the speed check and names a direction that drives the channels. */
  lemma DemoCommandsValid()
    ensures forall i :: 0 <= i < |MotorDemoCommands| ==>
              ValidSpeed(MotorDemoCommands[i].1) && -1 <= MotorDemoCommands[i].0 <= 1
    ensures forall i :: 0 <= i < |EncoderDemoCommands| ==>
              ValidSpeed(EncoderDemoCommands[i].1) && -1 <= EncoderDemoCommands[i].0 <= 1
  {
  }
}
