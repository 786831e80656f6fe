/** The UMDK LSM6DS3 module: the state shared by its acquisition thread, its shell
    command and its binary command handler.

    The sensor driver (raw sample read, temperature read, re-initialisation) is
    not part of this model: what it returns is passed in as parameters. */
module Lsm6ds3 {
  import opened Opt
  import opened CInt
  import opened PeakDetect

  newtype byte = x: int | 0 <= x < 256

  /** One raw reading, `lsm6ds3_data_t`: accelerometer (mg) and gyroscope axes. */
  datatype Data = Data(accX: int, accY: int, accZ: int, gyrX: int, gyrY: int, gyrZ: int)

  predicate DataIsInt32(d: Data) {
    IsInt32(d.accX) && IsInt32(d.accY) && IsInt32(d.accZ) &&
    IsInt32(d.gyrX) && IsInt32(d.gyrY) && IsInt32(d.gyrZ)
  }

  /** The driver's output-data-rate settings `LSM6DS3_ACC_GYRO_ODR_XL_*`. */
  datatype Odr = Odr13Hz | Odr26Hz | Odr52Hz | Odr104Hz | Odr208Hz | Odr416Hz | Odr833Hz | Odr1660Hz

  /** The driver's anti-aliasing filter settings `LSM6DS3_ACC_GYRO_BW_XL_*`. */
  datatype Bandwidth = Bw50Hz | Bw100Hz | Bw200Hz | Bw400Hz

  /** The part of the driver parameters `lsm6ds3.params` that the shell command changes
      or promises not to change. */
  datatype Params = Params(gyroSampleRate: Odr, accelSampleRate: Odr,
                           gyroBandwidth: Bandwidth, accelBandwidth: Bandwidth)

  /** The defaults installed by `umdk_lsm6ds3_init`. */
  const DefaultParams: Params := Params(Odr1660Hz, Odr1660Hz, Bw400Hz, Bw400Hz)

  /** The rate in Hz that names each setting on the shell command line. */
  function OdrHz(o: Odr): nat {
    match o
    case Odr13Hz => 13
    case Odr26Hz => 26
    case Odr52Hz => 52
    case Odr104Hz => 104
    case Odr208Hz => 208
    case Odr416Hz => 416
    case Odr833Hz => 833
    case Odr1660Hz => 1660
  }

  /** The cut-off in Hz that names each filter setting on the shell command line. */
  function BandwidthHz(b: Bandwidth): nat {
    match b
    case Bw50Hz => 50
    case Bw100Hz => 100
    case Bw200Hz => 200
    case Bw400Hz => 400
  }

  /** The `switch` of `lsm6ds3 rate <n>`: the setting named by `rate`, if any. */
  function RateOdr(rate: int): (o: Option<Odr>)
    ensures o.Some? ==> OdrHz(o.value) == rate
    ensures o.None? ==> forall d: Odr :: OdrHz(d) != rate
  {
    match rate
    case 13 => Some(Odr13Hz)
    case 26 => Some(Odr26Hz)
    case 52 => Some(Odr52Hz)
    case 104 => Some(Odr104Hz)
    case 208 => Some(Odr208Hz)
    case 416 => Some(Odr416Hz)
    case 833 => Some(Odr833Hz)
    case 1660 => Some(Odr1660Hz)
    case _ => None
  }

  /** The `switch` of `lsm6ds3 filter <n>`: the setting named by `filter`, if any. */
  function FilterBandwidth(filter: int): (b: Option<Bandwidth>)
    ensures b.Some? ==> BandwidthHz(b.value) == filter
    ensures b.None? ==> forall w: Bandwidth :: BandwidthHz(w) != filter
  {
    match filter
    case 50 => Some(Bw50Hz)
    case 100 => Some(Bw100Hz)
    case 200 => Some(Bw200Hz)
    case 400 => Some(Bw400Hz)
    case _ => None
  }

  /** Every setting is reached by exactly the rate that names it. */
  lemma RateOdrRoundTrip(o: Odr)
    ensures RateOdr(OdrHz(o)) == Some(o)
  {
  }

  /** Every filter setting is reached by exactly the cut-off that names it. */
  lemma FilterBandwidthRoundTrip(b: Bandwidth)
    ensures FilterBandwidth(BandwidthHz(b)) == Some(b)
  {
  }

  /** The shell sub-commands that read `argv[2]`. */
  predicate TakesValue(argv: seq<string>) {
    |argv| >= 2 && (argv[1] == "ths" || argv[1] == "rate" || argv[1] == "filter")
  }

  /** The module's global state: `acc_max_value`, `acq_ths`, the driver
      parameters, and whether the 10 ms acquisition timer is armed. */
  class Module {
    var accMaxValue: Data
    var acqThs: int
    var params: Params
    var acquiring: bool

    /** Once acquisition runs, every accelerometer maximum is INT_MIN or a
        positive sample. */
    ghost predicate Valid()
      reads this
    {
      IsInt32(acqThs) && DataIsInt32(accMaxValue) &&
      (acquiring ==>
         Tracking(accMaxValue.accX) && Tracking(accMaxValue.accY) && Tracking(accMaxValue.accZ))
    }

    /** Static initialisation (`acq_ths = 500`, `acc_max_value` zeroed) followed by
        the default parameters of `umdk_lsm6ds3_init`; the timer is not yet armed. */
    constructor ()
      ensures Valid()
      ensures accMaxValue == Data(0, 0, 0, 0, 0, 0) && acqThs == 500
      ensures params == DefaultParams && !acquiring
    {
      accMaxValue := Data(0, 0, 0, 0, 0, 0);
      acqThs := 500;
      params := DefaultParams;
      acquiring := false;
    }

    /** One tick of the acquisition thread, given the sample the driver returned.
        Each accelerometer axis is updated from its own old maximum and its own
        sample only; the gyroscope maxima are left alone. The `peak` results are
        the peaks the thread reports on this tick. */
    method AcquisitionTick(sample: Data) returns (peakX: Option<int>, peakY: Option<int>, peakZ: Option<int>)
      requires Valid() && acquiring
      requires DataIsInt32(sample)
      // C's `sample + acq_ths` must not overflow where it is evaluated
      requires 0 < sample.accX <= accMaxValue.accX ==> IsInt32(sample.accX + acqThs)
      requires 0 < sample.accY <= accMaxValue.accY ==> IsInt32(sample.accY + acqThs)
      requires 0 < sample.accZ <= accMaxValue.accZ ==> IsInt32(sample.accZ + acqThs)
      modifies this`accMaxValue
      ensures Valid()
      ensures AxisStep(old(accMaxValue.accX), sample.accX, acqThs) == AxisOutcome(accMaxValue.accX, peakX)
      ensures AxisStep(old(accMaxValue.accY), sample.accY, acqThs) == AxisOutcome(accMaxValue.accY, peakY)
      ensures AxisStep(old(accMaxValue.accZ), sample.accZ, acqThs) == AxisOutcome(accMaxValue.accZ, peakZ)
      ensures accMaxValue.gyrX == old(accMaxValue.gyrX)
      ensures accMaxValue.gyrY == old(accMaxValue.gyrY)
      ensures accMaxValue.gyrZ == old(accMaxValue.gyrZ)
    {
      peakX, peakY, peakZ := None, None, None;

      if sample.accX > 0 {
        if sample.accX > accMaxValue.accX {
          accMaxValue := accMaxValue.(accX := sample.accX);
        } else if sample.accX + acqThs < accMaxValue.accX {
          peakX := Some(accMaxValue.accX);
          accMaxValue := accMaxValue.(accX := INT_MIN);
        }
      }

      if sample.accY > 0 {
        if sample.accY > accMaxValue.accY {
          accMaxValue := accMaxValue.(accY := sample.accY);
        } else if sample.accY + acqThs < accMaxValue.accY {
          peakY := Some(accMaxValue.accY);
          accMaxValue := accMaxValue.(accY := INT_MIN);
        }
      }

      if sample.accZ > 0 {
        if sample.accZ > accMaxValue.accZ {
          accMaxValue := accMaxValue.(accZ := sample.accZ);
        } else if sample.accZ + acqThs < accMaxValue.accZ {
          peakZ := Some(accMaxValue.accZ);
          accMaxValue := accMaxValue.(accZ := INT_MIN);
        }
      }
    }

    /** `umdk_lsm6ds3_shell_cmd(argc, argv)` with `argc == |argv|`. `value` is what
        `atoi(argv[2])` returns and `initOk` whether the driver's re-initialisation
        after `rate` or `filter` succeeds. */
    method ShellCmd(argv: seq<string>, value: int, initOk: bool) returns (ret: int)
      requires Valid()
      requires |argv| >= 1
      requires TakesValue(argv) ==> |argv| >= 3 && IsInt32(value)
      modifies this
      ensures Valid()
      // `lsm6ds3` alone prints the help text and changes nothing
      ensures |argv| == 1 ==> ret == 0 && unchanged(this)
      ensures |argv| >= 2 ==> ret == (if (argv[1] == "rate" || argv[1] == "filter") && !initOk then -1 else 1)
      // start: all six maxima reset, timer armed
      ensures |argv| >= 2 && argv[1] == "start" ==>
        accMaxValue == Data(INT_MIN, INT_MIN, INT_MIN, INT_MIN, INT_MIN, INT_MIN) && acquiring
      ensures |argv| >= 2 && argv[1] == "stop" ==> !acquiring
      ensures |argv| >= 2 && argv[1] == "ths" ==> acqThs == value
      // rate: both sample rates take the named setting, or stay as they were
      ensures |argv| >= 2 && argv[1] == "rate" ==>
        params == (match RateOdr(value)
                   case Some(o) => old(params).(gyroSampleRate := o, accelSampleRate := o)
                   case None => old(params))
      // filter: only the accelerometer bandwidth changes, and only for a known cut-off
      ensures |argv| >= 2 && argv[1] == "filter" ==>
        params == (match FilterBandwidth(value)
                   case Some(b) => old(params).(accelBandwidth := b)
                   case None => old(params))
      // nothing else changes
      ensures |argv| >= 2 && argv[1] != "start" ==> accMaxValue == old(accMaxValue)
      ensures |argv| >= 2 && argv[1] != "start" && argv[1] != "stop" ==> acquiring == old(acquiring)
      ensures |argv| >= 2 && argv[1] != "ths" ==> acqThs == old(acqThs)
      ensures |argv| >= 2 && argv[1] != "rate" && argv[1] != "filter" ==> params == old(params)
      ensures params.gyroBandwidth == old(params.gyroBandwidth)
    {
      if |argv| == 1 {
        return 0;
      }

      var cmd := argv[1];

      if cmd == "start" {
        accMaxValue := Data(INT_MIN, INT_MIN, INT_MIN, INT_MIN, INT_MIN, INT_MIN);
        acquiring := true;
      }

      if cmd == "stop" {
        acquiring := false;
      }

      if cmd == "ths" {
        acqThs := value;
      }

      if cmd == "filter" {
        match FilterBandwidth(value) {
          case Some(b) => params := params.(accelBandwidth := b);
          case None =>
        }
        if !initOk {
          return -1;
        }
      }

      if cmd == "rate" {
        match RateOdr(value) {
          case Some(o) => params := params.(gyroSampleRate := o, accelSampleRate := o);
          case None =>
        }
        if !initOk {
          return -1;
        }
      }

      return 1;
    }
  }

  /** `module_data_t`: a length and the buffer holding the bytes. */
  class ModuleData {
    var length: int
    var data: array<byte>

    constructor (capacity: nat)
      ensures length == 0 && data.Length == capacity && fresh(data)
    {
      length := 0;
      data := new byte[capacity];
    }
  }

  /** The command id `UMDK_LSM6DS3_CMD_POLL` and the module id
      `UNWDS_LSM6DS3_MODULE_ID`; their values come from headers that are not part of
      this model, so every statement below holds whatever they are. */
  const PollCommand: byte
  const ModuleId: byte

  /** The two bytes the 16-bit temperature occupies in memory (little-endian). */
  function TempBytes(temp: int): (b: seq<byte>)
    requires 0 <= temp < 0x1_0000
    ensures |b| == 2 && b[0] as int + 256 * b[1] as int == temp
  {
    [(temp % 256) as byte, (temp / 256) as byte]
  }

  /** The reply to a poll: the module id, the raw sample bytes, the temperature. */
  function PollReply(raw: seq<byte>, temp: int): seq<byte>
    requires 0 <= temp < 0x1_0000
  {
    [ModuleId] + raw + TempBytes(temp)
  }

  /** Reads a poll reply for a sample of `sampleSize` bytes back into its parts. */
  function ParsePollReply(reply: seq<byte>, sampleSize: nat): (r: Option<(byte, seq<byte>, int)>)
    ensures r.Some? ==> |reply| == 1 + sampleSize + 2 && 0 <= r.value.2 < 0x1_0000
  {
    if |reply| != 1 + sampleSize + 2 then None
    else Some((reply[0], reply[1..1 + sampleSize],
               reply[1 + sampleSize] as int + 256 * reply[2 + sampleSize] as int))
  }

  /** A poll reply carries exactly the module id, sample and temperature it was
      built from, and nothing else. */
  lemma PollReplyRoundTrip(raw: seq<byte>, temp: int)
    requires 0 <= temp < 0x1_0000
    ensures |PollReply(raw, temp)| == 1 + |raw| + 2
    ensures ParsePollReply(PollReply(raw, temp), |raw|) == Some((ModuleId, raw, temp))
  {
    var r := PollReply(raw, temp);
    assert r[1..1 + |raw|] == raw;
    assert r[1 + |raw|] == TempBytes(temp)[0] && r[2 + |raw|] == TempBytes(temp)[1];
  }

  /** `memcpy(dst + offset, src, |src|)`. */
  method CopyBytes(dst: array<byte>, offset: nat, src: seq<byte>)
    requires offset + |src| <= dst.Length
    modifies dst
    ensures dst[..offset] == old(dst[..offset])
    ensures dst[offset..offset + |src|] == src
    ensures dst[offset + |src|..] == old(dst[offset + |src|..])
  {
    var i := 0;
    while i < |src|
      invariant 0 <= i <= |src|
      invariant dst[..offset] == old(dst[..offset])
      invariant dst[offset..offset + i] == src[..i]
      invariant dst[offset + |src|..] == old(dst[offset + |src|..])
    {
      dst[offset + i] := src[i];
      i := i + 1;
    }
  }

  /** `umdk_lsm6ds3_cmd(cmd, reply)`, given the raw sample bytes and the
      temperature the driver returns. */
  method Command(cmd: ModuleData, reply: ModuleData, raw: seq<byte>, temp: int) returns (ok: bool)
    requires 0 <= cmd.length <= cmd.data.Length
    requires 0 <= temp < 0x1_0000
    requires 1 + |raw| + 2 <= reply.data.Length
    modifies reply, reply.data
    // an empty command or an unknown command id is refused and the reply is untouched
    ensures ok <==> cmd.length >= 1 && old(cmd.data[0]) == PollCommand
    ensures !ok ==> unchanged(reply) && unchanged(reply.data)
    // a poll is answered with the module id, the sample and the temperature
    ensures ok ==> reply.data == old(reply.data) && reply.length == 1 + |raw| + 2
    ensures ok ==> reply.data[..reply.length] == PollReply(raw, temp)
    ensures ok ==> reply.data[reply.length..] == old(reply.data[1 + |raw| + 2..])
  {
    if cmd.length < 1 {
      return false;
    }

    var c := cmd.data[0];

    if c != PollCommand {
      return false;
    }

    reply.length := 1 + |raw| + 2;
    reply.data[0] := ModuleId;
    CopyBytes(reply.data, 1, raw);
    CopyBytes(reply.data, 1 + |raw|, TempBytes(temp));
    assert reply.data[..reply.length] == [ModuleId] + raw + TempBytes(temp);
    return true;
  }
}
