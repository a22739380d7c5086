# ESP32 pin-I/O demos: pulse encoder, motor driver and MPU6050 decoder in Dafny

This project models the three pieces of logic in a set of ESP-IDF demo
programs and proves properties of them.

- **The pulse encoder** of the motor-encoder demo. An edge interrupt handler
  ignores edges within 1000 µs of the last accepted edge. It counts the other
  edges and wraps the count to 0 when it reaches `ENCODER_MAX_COUNT`.
  `encoder_init` can fail at three points: GPIO configuration, ISR-service
  install and handler registration. The model also covers the snapshot read,
  the status report and the periodic pulse-rate sampler, which keeps its own
  `last_count` and `last_time`. `Encoder` is a class whose fields are the
  C state: `encoder_state` plus the function-static variables. The wrap
  limit is a constructor parameter, held in `maxCount`, so the wrap can be
  checked at small limits. The clock reading, the tick count, the period in
  ticks and the driver results are method parameters. The pure functions
  `AfterEdge` and `AfterEdges` describe the handler on values. The counting
  theorems are proved about them, and `HandleEdge` is tied to `AfterEdge`.
- **`drive_motor`**, found in the motor demo and again in the motor-encoder
  demo (`pin_io/motor-encoder/main/pin_io_main.c:154-183`), unchanged apart
  from its log messages.
  It checks the speed against [0, 1023]. It maps direction 0, 1 or -1 to
  the duties of the two LEDC channels. It ORs the driver results together.
  `DriveMotor` returns the LEDC calls it issues and the ORed result.
- **The MPU6050 decoder**. `read_word` decodes one big-endian
  two's-complement word. The 14-byte register block splits into seven such
  readings. `mpu6050_write_byte` sends a `[reg, data]` frame.

Modules: `Esp` (`esp.dfy`) holds the `esp_err_t` codes and the integer-width
predicates. `esp_err_t` is kept as its 32-bit pattern (`bv32`) so that `|=`
is a real bitwise OR. The codes are ESP-IDF's: ESP_OK = 0, ESP_FAIL = -1,
ESP_ERR_INVALID_ARG = 0x102 and ESP_ERR_INVALID_STATE = 0x103. `esp_err.h`
is not part of this model. The other modules are `MotorEncoder`
(`encoder.dfy`), `Motor` (`motor.dfy`) and `Mpu6050` (`mpu6050.dfy`).
`EncoderScenarios` (`scenarios.dfy`) has clients of the class. One is a
method that feeds a run of edges to the handler. The others are runs of the
encoder: debounce, a chain of bounces, wrap at 10, re-init, status before
init, rate sampling, and a sample after a re-init. They are proved from the
class contracts alone.

The code behaves in some places other than one might expect. The model
follows the code:

- One might expect a sample to report nothing when the period converts to
  0 ticks and no time has passed. The code fires anyway and reports 0
  elapsed ticks, since `elapsed >= 0` always holds. It then divides by zero
  in floating point, with no guard.
- One might expect a failed `encoder_init` to leave the encoder
  uninitialized. The code leaves `initialized` as it was, so it stays true
  after an earlier successful init.
- `encoder_init` returns the failing driver's own error code, not a
  separate error kind. The ISR-service install is a third failure point,
  and ESP_ERR_INVALID_STATE from it counts as success.
- The debounce window is measured from the last *accepted* edge, not from
  the last edge. A chain of edges 600 µs apart after init at 0 counts every
  second one: 600 is dropped, 1200 counts, 1800 is dropped, 2400 counts
  (`BounceChainScenario`).
- A successful re-init resets `pulse_count` but not the sampler's
  `last_count`. So the next sample can report a negative `count_diff` with
  no wrap: 3 edges, a sample, a re-init and 1 edge give -2
  (`ReinitRateScenario`). `CountDiffAfterEdges` covers only runs of edges
  with no init between the samples.

## Model

| member | source | states |
|---|---|---|
| MotorEncoder.Increment | pin_io/motor-encoder/main/pin_io_main.c:60-64 | an accepted edge takes the count to (count + 1) mod the limit, stays in [0, limit), and the `++` stays within int32 |
| MotorEncoder.AfterEdge | pin_io/motor-encoder/main/pin_io_main.c:50-66 | an edge less than 1000 µs after the last accepted one changes neither count nor last time; otherwise last time becomes now and the count becomes old + 1, or 0 exactly when old + 1 reaches the limit |
| MotorEncoder.AfterEdges | pin_io/motor-encoder/main/pin_io_main.c:50-66 | the range invariant 0 <= count < limit holds after any run of edges |
| MotorEncoder.CountIsAcceptedModMax | pin_io/motor-encoder/main/pin_io_main.c:50-66 | for any edge times, the count is (initial count + number of accepted edges) mod the limit |
| MotorEncoder.SpacedEdgesAllAccepted | pin_io/motor-encoder/main/pin_io_main.c:53-57 | edges each at least 1000 µs after the previous one are all accepted |
| MotorEncoder.SpacedEdgesLastTime | pin_io/motor-encoder/main/pin_io_main.c:57 | after spaced edges the last accepted edge time is that of the last edge |
| MotorEncoder.SpacedEdgesCountModMax | pin_io/motor-encoder/main/pin_io_main.c:50-66 | from the counter that a successful init leaves (count 0, last time t0), N spaced edges leave the count at N mod the limit |
| MotorEncoder.BounceBurstIgnored | pin_io/motor-encoder/main/pin_io_main.c:53-55 | edges all within 1000 µs of the last accepted edge leave count and last time unchanged, however many there are |
| MotorEncoder.CountDiffAfterEdges | pin_io/motor-encoder/main/pin_io_main.c:139-140 | after k < limit accepted edges, `count_diff` is k when the counter did not wrap and k - limit when it did; it is negative exactly when it wrapped |
| MotorEncoder.ElapsedTicks | pin_io/motor-encoder/main/pin_io_main.c:138 | uint32 tick subtraction: the elapsed ticks are in [0, 2^32), added to the last time they give the current time mod 2^32, and are now - last or now - last + 2^32 |
| MotorEncoder.InitPlan | pin_io/motor-encoder/main/pin_io_main.c:79-99 | init succeeds exactly when all driver steps succeed; the calls come in order and stop at the first failure; install is attempted only while not yet installed; the returned code is the last call's result; ESP_ERR_INVALID_STATE counts as installed |
| MotorEncoder.Encoder.constructor | pin_io/motor-encoder/main/pin_io_main.c:41-47 | the initial state: count 0, last time 0, not initialized, service not installed, sampler at count 0 and tick 0 |
| MotorEncoder.Encoder.HandleEdge | pin_io/motor-encoder/main/pin_io_main.c:50-66 | the handler's new count and last time are those of AfterEdge on the old state; the range invariant is kept |
| MotorEncoder.Encoder.Init | pin_io/motor-encoder/main/pin_io_main.c:68-108 | return code, calls and service flag as InitPlan says; on success the count is 0, the last time is the clock and initialized is true; on failure count, last time and initialized are unchanged |
| MotorEncoder.Encoder.GetCount | pin_io/motor-encoder/main/pin_io_main.c:110-116 | returns the pulse count, which lies in [0, limit), and changes nothing |
| MotorEncoder.Encoder.PrintStatus | pin_io/motor-encoder/main/pin_io_main.c:118-129 | reports nothing when not initialized; otherwise reports the pin and the current count |
| MotorEncoder.Encoder.PrintPulseRate | pin_io/motor-encoder/main/pin_io_main.c:131-152 | a no-op when not initialized or when fewer ticks than the period have elapsed (mod 2^32); otherwise reports count_diff = count - last_count and the elapsed ticks, then moves the sample point to the current count and tick |
| EncoderScenarios.DeliverEdges | pin_io/motor-encoder/main/pin_io_main.c:94-95 | once the handler is registered, a run of edges leaves the counter at AfterEdges of the old state |
| EncoderScenarios.CountSpacedEdges | pin_io/motor-encoder/main/pin_io_main.c:101-102 | after a successful init at t0 and N spaced edges, encoder_get_count returns N mod the limit |
| Motor.OrAllOkIff | pin_io/motor/main/pin_io_main.c:29-50 | the ORed result is ESP_OK exactly when every driver call returned ESP_OK |
| Motor.DriveMotor | pin_io/motor/main/pin_io_main.c:22-55 | a speed outside [0, 1023] returns ESP_ERR_INVALID_ARG with no call; direction 0, 1 and -1 write duties (0, 0), (speed, 0) and (0, speed), each set followed by its update; any other direction makes no call and returns ESP_OK; the result is the OR of the results of the calls made, so ESP_OK exactly when all succeeded; every duty is valid and at most one channel is nonzero |
| Motor.DemoCommandsValid | pin_io/motor/main/pin_io_main.c:89-117 | every command of the motor demo's `app_main` loop (`MotorDemoCommands`) and of the motor-encoder demo's `motor_task` loop at pin_io/motor-encoder/main/pin_io_main.c:185-211 (`EncoderDemoCommands`) has a valid speed and a direction in {-1, 0, 1} |
| Mpu6050.JoinBytes | pin_io/gyro-accel/main/pin_io_main.c:53 | (hi << 8) OR lo is in [0, 2^16) with hi as its high byte and lo as its low byte |
| Mpu6050.JoinBytesIsShiftOr | pin_io/gyro-accel/main/pin_io_main.c:53 | on 32-bit words, `(hi << 8) OR lo` of two bytes equals JoinBytes, hi * 256 + lo |
| Mpu6050.ToInt16 | pin_io/gyro-accel/main/pin_io_main.c:53 | the int16_t conversion gives the int16 congruent to its argument mod 2^16 |
| Mpu6050.ReadWord | pin_io/gyro-accel/main/pin_io_main.c:52-54 | read_word needs idx + 1 in bounds and returns a value in [-32768, 32767] |
| Mpu6050.ReadWordValue | pin_io/gyro-accel/main/pin_io_main.c:53 | read_word is d[i]*256 + d[i+1] when d[i] < 128, and that minus 65536 otherwise |
| Mpu6050.ReadWordLocal | pin_io/gyro-accel/main/pin_io_main.c:52-54 | read_word depends on d[i] and d[i+1] only |
| Mpu6050.ReadWordEncodeWord | pin_io/gyro-accel/main/pin_io_main.c:53 | splitting any int16 into high and low byte and reading the word back gives the value |
| Mpu6050.EncodeWordReadWord | pin_io/gyro-accel/main/pin_io_main.c:53 | splitting the decoded word gives back the two bytes read |
| Mpu6050.ReadWordInjective | pin_io/gyro-accel/main/pin_io_main.c:53 | two byte pairs that decode to the same word are equal |
| Mpu6050.DecodeBlock | pin_io/gyro-accel/main/pin_io_main.c:71-77 | the seven readings ax..gz are read_word at offsets 0, 2, ..., 12 (all in bounds of the 14-byte block), are all int16, and re-encoded in order give the block back, so the pairs are disjoint, consecutive and cover the block |
| Mpu6050.DecodeEncodeSample | pin_io/gyro-accel/main/pin_io_main.c:71-77 | decoding the block encoded from any seven int16 readings returns those readings |
| Mpu6050.WriteFrame | pin_io/gyro-accel/main/pin_io_main.c:21-25 | a register write sends two bytes |
| Mpu6050.WriteFrameParses | pin_io/gyro-accel/main/pin_io_main.c:22-23 | the frame is exactly [reg, data]: the device reads back the register and the value, and different writes give different frames |
| Mpu6050.InitWritesEffect | pin_io/gyro-accel/main/pin_io_main.c:21-37 | the init write results are ignored: each of the four registers holds its configured value when its own write succeeded, keeps its old contents when that write failed, and no other register changes |
| Mpu6050.InitConfiguresSensor | pin_io/gyro-accel/main/pin_io_main.c:32-37 | when all four init writes succeed, the sensor is awake, at +-8 g and +-500 deg/s full scale, with filter setting 4 |

## Left out

- Concurrency: the spinlock critical sections, `volatile`, and the handler
  interrupting a task. The handler and `encoder_get_count` are atomic steps.
  So the model does not capture the unlocked write of `last_pulse_time_us`.
  It also misses an edge that arrives after the handler is registered but
  before init resets the count.
- Floating point: the pulse rate and the seconds in
  `encoder_print_pulse_rate`, and the accelerometer, gyroscope and
  temperature scaling. Only the integer `count_diff` and the elapsed ticks
  are modelled.
- `esp_timer_get_time` is an unbounded integer. Its int64 range and wrap are
  not modelled, since they cannot be reached at any real uptime.
- `pdMS_TO_TICKS` and the tick rate: the sampler takes the period in ticks.
- `Mpu6050.ApplyWrites`: a failed `mpu6050_write_byte` is taken to leave the
  device unchanged. The code only shows that `mpu6050_init` ignores the
  results. An I2C error after the device has latched the data byte, which
  would leave the register written, is not modelled.
- Hardware and OS calls are abstract results: GPIO configuration fields,
  LEDC channel setup, the I2C driver, the I2C read and its failure path in
  the gyro loop, and `vTaskDelay`.
- `Encoder.PrintStatus`: the promise that nothing is read before init is
  shown only by the absent count in the report. Field reads are not
  observable in the model.
- Logging, including the overflow warning of the handler.
- The endless task loops `motor_task`, `encoder_logger_task` and the
  demos' `app_main` loops. `Motor.DemoCommandsValid` covers the commands
  they send.
- The networking demos (HTTP, MQTT, UDP, Wi-Fi station), the GPIO polling
  demo and the ultrasonic demo: they are wrappers over libraries outside this
  model.
