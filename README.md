# LSM6DS3 peak detector and fixed-point formatter, in Dafny

This project models two self-contained pieces of integer logic from a RIOT-based
firmware tree for Unwired Devices boards (the tree is mostly about a SIM5300
cellular modem; the modem's AT-command engine is not part of this model).

**The UMDK LSM6DS3 module** (`unwired-modules/umdk-lsm6ds3/umdk-lsm6ds3.c`) is the
`Lsm6ds3` and `PeakDetect` modules here.

- **State.** The module keeps a running maximum per axis (`acc_max_value`), a peak
  threshold (`acq_ths`, 500 mg at start-up) and the sensor driver's parameters. In
  the model these are the fields of the class `Lsm6ds3.Module`, together with
  whether the 10 ms acquisition timer is armed.
- **Acquisition tick.** Every tick reads one sample. On each accelerometer axis, a
  positive sample above the maximum becomes the new maximum. A positive sample that
  falls more than the threshold below the maximum reports a peak, the old maximum,
  and resets the maximum to `INT_MIN`. Samples at or below zero are ignored.
  `PeakDetect.AxisStep` is one axis update. `PeakDetect.Run` is the detector over a
  sequence of ticks. The lemmas tie `Run` to `PeakDetect.SegmentMax`, an independent
  definition of "largest positive sample since the last reset".
- **Shell command.** `lsm6ds3` alone prints help and returns 0. The sub-commands
  are:
  - `start` resets all six maxima and arms the timer;
  - `stop` disarms the timer;
  - `ths` sets the threshold;
  - `rate` maps 13/26/52/104/208/416/833/1660 Hz to the same output-data-rate
    setting for the gyroscope and the accelerometer;
  - `filter` maps 50/100/200/400 Hz to the accelerometer's anti-aliasing bandwidth;
  - `get` and `send` change no state.

  `rate` and `filter` re-initialise the driver and return -1 if that fails. Every
  other path returns 1.
- **Binary command.** `umdk_lsm6ds3_cmd` answers the poll command with a reply made
  of the module id, the raw sample bytes and the two temperature bytes. It refuses
  an empty or unknown command and leaves the reply untouched.

**`int_to_float_str`** (`tests/sys_dsp/main.c`) is the `FixedPoint` module.

- **What it prints.** It prints the fixed-point integer `decimal`, read as
  `decimal / 10^precision`, as decimal text in the caller's buffer.
- **How the C code does it.** It builds a printf format at run time: an optional
  `-`, then `%d.%0`, then the loop count printed with `"%" PRIu32 "d"`. It then lets
  `snprintf` print the magnitudes of C's truncating quotient and remainder with that
  format.
- **How the model does it.** The model keeps those steps:
  - `Render` is the part of `snprintf` these formats use: `0` flags, a width and `%d`.
  - `FloatStr` states what the text means.
  - The lemmas prove that the built format renders exactly `FloatStr`.
  - `ParseFixed` reads such text back, and the round trip recovers `decimal`.
- **Buffer contents.** The method `FixedPoint.IntToFloatStr` writes the text and its
  terminator into a `char` array and leaves the rest of the array untouched.
- **Precision 0.** The code's own behaviour is followed here. The format becomes
  `%d.%00d`: two `0` flags and no width. So the zero remainder is printed as one `0`
  (`42` gives `42.0`), not as an empty field, and the round trip at precision 0 gives
  `decimal * 10` with one fraction digit.

The C `int` arithmetic the code relies on is in `CInt`. This covers the 32-bit
range, `abs`, and `/` and `%` truncating toward zero.

## Model

| member | source | states |
|---|---|---|
| PeakDetect.AxisStep | unwired-modules/umdk-lsm6ds3/umdk-lsm6ds3.c:66-101 | a sample ≤ 0 leaves the maximum and reports nothing; a peak is reported exactly when 0 < sample ≤ max and sample + ths < max, the peak is the old maximum and the maximum becomes INT_MIN; otherwise a positive sample raises the maximum to itself if larger; a maximum that is INT_MIN or positive stays so |
| PeakDetect.SegmentMax | unwired-modules/umdk-lsm6ds3/umdk-lsm6ds3.c:66-68 | reference value of "largest positive sample seen": INT_MIN or positive, one of the samples, at least every positive sample, INT_MIN only when no sample is positive |
| PeakDetect.RunKeepsTracking | unwired-modules/umdk-lsm6ds3/umdk-lsm6ds3.c:142-145 | started from INT_MIN (or a positive maximum), any sequence of ticks keeps the maximum INT_MIN or positive, and every reported peak is positive |
| PeakDetect.RunAppend | unwired-modules/umdk-lsm6ds3/umdk-lsm6ds3.c:58-105 | ticks compose: running over xs then ys equals running over ys from the maximum xs left, with the peaks of both parts in order |
| PeakDetect.RunTracksSegmentMax | unwired-modules/umdk-lsm6ds3/umdk-lsm6ds3.c:66-76 | after a reset and while no peak has been reported, the running maximum is exactly SegmentMax of the samples seen |
| PeakDetect.PeakIsSegmentMax | unwired-modules/umdk-lsm6ds3/umdk-lsm6ds3.c:69-74 | a peak ending a segment that began at a reset is the segment's largest sample, is one of its samples, lies more than the threshold above the triggering sample, and the maximum restarts at INT_MIN |
| Lsm6ds3.RateOdr | unwired-modules/umdk-lsm6ds3/umdk-lsm6ds3.c:190-228 | a rate selects the setting whose frequency it is; a rate naming no setting selects none |
| Lsm6ds3.RateOdrRoundTrip | unwired-modules/umdk-lsm6ds3/umdk-lsm6ds3.c:192-225 | each of the eight settings is selected by its own frequency |
| Lsm6ds3.FilterBandwidth | unwired-modules/umdk-lsm6ds3/umdk-lsm6ds3.c:163-181 | a cut-off selects the bandwidth whose frequency it is; any other value selects none |
| Lsm6ds3.FilterBandwidthRoundTrip | unwired-modules/umdk-lsm6ds3/umdk-lsm6ds3.c:165-178 | each of the four bandwidths is selected by its own frequency |
| Lsm6ds3.Module.constructor | unwired-modules/umdk-lsm6ds3/umdk-lsm6ds3.c:47-49 | start-up state: threshold 500, maxima zero, default rates 1660 Hz and bandwidths 400 Hz (lines 253-262), timer not armed, invariant holds |
| Lsm6ds3.Module.AcquisitionTick | unwired-modules/umdk-lsm6ds3/umdk-lsm6ds3.c:63-101 | each accelerometer axis is updated by AxisStep from its own old maximum and sample, with the peaks reported; gyroscope maxima unchanged; the invariant (maxima INT_MIN or positive while acquiring) is preserved |
| Lsm6ds3.Module.ShellCmd | unwired-modules/umdk-lsm6ds3/umdk-lsm6ds3.c:109-238 | help returns 0 and changes nothing; `rate`/`filter` return -1 when re-initialisation fails, every other path 1; `start` sets all six maxima to INT_MIN and arms the timer; `stop` disarms it; `ths` sets the threshold; `rate` sets both sample rates to the named setting or leaves them; `filter` sets only the accelerometer bandwidth or leaves it; gyroscope bandwidth never changes; every field a sub-command does not name is unchanged; the invariant is preserved |
| Lsm6ds3.TempBytes | unwired-modules/umdk-lsm6ds3/umdk-lsm6ds3.c:305-311 | the two bytes of the 16-bit temperature, which rebuild its value |
| Lsm6ds3.PollReplyRoundTrip | unwired-modules/umdk-lsm6ds3/umdk-lsm6ds3.c:307-311 | a poll reply is 1 + sample size + 2 bytes long and reads back as exactly the module id, the sample bytes and the temperature it was built from |
| Lsm6ds3.CopyBytes | unwired-modules/umdk-lsm6ds3/umdk-lsm6ds3.c:310-311 | `memcpy`: the destination range holds the source, bytes before and after it are unchanged |
| Lsm6ds3.Command | unwired-modules/umdk-lsm6ds3/umdk-lsm6ds3.c:292-320 | returns true exactly for a non-empty command whose first byte is the poll id; otherwise the reply is untouched; on a poll the reply length is 1 + sample size + 2, its bytes are the module id, the sample and the temperature, and the rest of the buffer is untouched |
| CInt.DivRem | tests/sys_dsp/main.c:60 | C's truncating quotient and remainder rebuild the dividend, take its sign, and have the magnitudes of the dividend's magnitude divided by the divisor |
| CInt.AbsDivRem | tests/sys_dsp/main.c:60 | the magnitudes printed, abs of quotient and abs of remainder, rebuild abs(decimal); the remainder's is below the divider and the quotient's at most abs(decimal) |
| FixedPoint.Truncate | tests/sys_dsp/main.c:57 | what snprintf stores for a size: a prefix of the text shorter than the size, the whole text when it fits |
| FixedPoint.RenderLiteral | tests/sys_dsp/main.c:60 | snprintf copies a character other than `%` to the output |
| FixedPoint.RenderDirective | tests/sys_dsp/main.c:60 | snprintf prints the next argument as the directive after `%` specifies and continues after the directive |
| FixedPoint.ParsePlain | tests/sys_dsp/main.c:50 | `%d` is read as no flag, no width, one character |
| FixedPoint.ParseDoubleZero | tests/sys_dsp/main.c:50 | `%00d` (precision 0) is read as the `0` flag with no width |
| FixedPoint.ParseZeroWidth | tests/sys_dsp/main.c:50 | `%0Nd` with N from 1 to 9 is read as the `0` flag and width N |
| FixedPoint.FormatIntZeroPad | tests/sys_dsp/main.c:60 | `%0Nd` of a non-negative value is its digits zero-padded to N, and `%d` is its plain digits |
| FixedPoint.RenderFraction | tests/sys_dsp/main.c:50-60 | the fraction directive prints the remainder zero-padded to FractionWidth(precision) digits |
| FixedPoint.RenderIntPoint | tests/sys_dsp/main.c:50-60 | `%d.%0Nd` prints the integer part, a point and the zero-padded fraction |
| FixedPoint.FloatFormatShape | tests/sys_dsp/main.c:48-58 | the built format is the optional `-`, then `%d.%0`, the precision digit and `d`: `"%" PRIu32 "d"` prints the count and a literal `d`, which `digits[3]` holds for a one-digit count |
| FixedPoint.RenderFloatFormat | tests/sys_dsp/main.c:48-60 | the built format with abs(decimal/divider) and abs(decimal%divider) prints exactly FloatStr |
| FixedPoint.FloatStrSign | tests/sys_dsp/main.c:48-50 | the text starts with `-` exactly when decimal is negative, also when the integer part is 0 |
| FixedPoint.FractionLength | tests/sys_dsp/main.c:57-60 | the fraction field is exactly FractionWidth(precision) digits: precision digits for 1 to 9, one digit for 0 |
| FixedPoint.FloatStrLength | tests/sys_dsp/main.c:60 | for a C int and precision ≤ 9 the text is at most 21 characters, so it and its terminator fit the 50 bytes snprintf may write |
| FixedPoint.ParseFloatStr | tests/sys_dsp/main.c:60 | reading the text back gives the quotient's digits followed by the remainder's digits as one number, with decimal's sign, at FractionWidth(precision) fraction digits |
| FixedPoint.Mantissa | tests/sys_dsp/main.c:53-60 | that number is decimal scaled from precision to FractionWidth(precision) fraction digits, hence decimal itself for precision ≥ 1 |
| FixedPoint.FloatStrRoundTrip | tests/sys_dsp/main.c:41-61 | parsing the text gives back decimal with precision fraction digits for precision 1 to 9, and decimal·10 with one fraction digit for precision 0 |
| FixedPoint.ScaleLoop | tests/sys_dsp/main.c:53-55 | after the loop the counter equals precision and divider is 10^precision, still a C int |
| FixedPoint.PrepareFormat | tests/sys_dsp/main.c:44-58 | the format built by the strcat steps is FloatFormat and fits `char format[10]` with its terminator; the divider is 10^precision |
| FixedPoint.FormatText | tests/sys_dsp/main.c:41-60 | the text snprintf produces from the built format is FloatStr(decimal, precision), at most 21 characters |
| FixedPoint.Store | tests/sys_dsp/main.c:60 | snprintf's store: the buffer holds the text then the terminator, the rest is unchanged |
| FixedPoint.IntToFloatStr | tests/sys_dsp/main.c:41-61 | the caller's buffer holds FloatStr(decimal, precision) followed by the terminator; bytes after it are unchanged |

## Left out

- The SIM5300 modem transport (`sim5300_*` and `apps/tcp_sim5300/main.c`): the bodies of the modem library are not part of this model.
- Threads, message queues and timers (`acq_thread`'s loop, `xtimer_set_msg`, `xtimer_remove`, `thread_create`): one loop iteration is `AcquisitionTick`, and "the timer is armed" is the boolean field `acquiring`. A tick already queued when `stop` runs is not modelled.
- Lsm6ds3.Module.AcquisitionTick: requires `acquiring`, because ticks only arrive while `start` has armed the timer. The peaks it returns are the ones the C code prints.
- Sensor driver calls (`lsm6ds3_get_raw`, `lsm6ds3_read_temp_c`, `lsm6ds3_init`): their results are parameters (the sample, the raw sample bytes, the temperature, `initOk`).
- `atoi(argv[2])`: its result is the parameter `value`. `ths`, `rate` and `filter` require `argc ≥ 3`, since the C code reads `argv[2]` unchecked.
- Lsm6ds3.Module.AcquisitionTick: requires that `sample + acq_ths` does not overflow a C int where the code evaluates it, instead of modelling the overflow.
- Printed text (`puts`, `printf`): help text, `get`, threshold and peak messages. Two quirks of that output are not modelled. The `%d.%d` peak and `get` prints drop the fraction's leading zeros and the sign of values between -999 and -1. The gyroscope Z line prints `acc_z`'s integer part.
- The byte layout of `lsm6ds3_data_t` in the poll reply: its size and endianness are not visible, so the sample is an abstract byte sequence. The values of `UMDK_LSM6DS3_CMD_POLL` and `UNWDS_LSM6DS3_MODULE_ID` are unknown constants, so every statement holds for any value. `reply->length` is modelled as an unbounded integer.
- Other driver parameters: the model's `Params` holds only the rate and bandwidth settings that the shell command touches.
- FixedPoint.IntToFloatStr: requires precision ≤ 9 (the `int` divider overflows from 10 on, and `digits[3]` cuts a two-digit count). It also requires `decimal != INT_MIN` at precision 0, where `abs` is undefined.
- Other printf conversions: `Render` covers only `%d` with `0` flags and a width.
- The rest of `tests/sys_dsp/main.c` (`main`: floating-point sine generation, the Q15 FFT library, float-to-int conversion).
