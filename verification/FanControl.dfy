/** Fan curves and PWM control of src/fan_control.rs, over exact reals. */
module FanControl {
  import opened FileStore
  import opened Reals
  import opened Text

  // ---- curves ----

  datatype Point = Point(temp: real, speed: real)

  type Curve = seq<Point>

  function Interpolate(p: Point, q: Point, temp: real): real
    requires p.temp < q.temp
  {
    p.speed + ((q.speed - p.speed) * (temp - p.temp)) / (q.temp - p.temp)
  }

  /** The scan over segments, from segment i on. */
  function Scan(points: Curve, temp: real, i: nat): real
    requires i < |points| && points[i].temp < temp
    decreases |points| - i
  {
    if i + 1 == |points| then 100.0
    else if temp >= points[i].temp && temp <= points[i + 1].temp then Interpolate(points[i], points[i + 1], temp)
    else Scan(points, temp, i + 1)
  }

  function Speed(points: Curve, temp: real): real {
    if points == [] then 100.0
    else if temp <= points[0].temp then points[0].speed
    else if temp >= points[|points| - 1].temp then points[|points| - 1].speed
    else Scan(points, temp, 0)
  }

  /** calculate_speed. The division is by a positive range on every path, whatever the order of the points. */
  method CalculateSpeed(points: Curve, temp: real) returns (speed: real)
    ensures speed == Speed(points, temp)
  {
    if points == [] {
      return 100.0;
    }
    if temp <= points[0].temp {
      return points[0].speed;
    }
    if temp >= points[|points| - 1].temp {
      return points[|points| - 1].speed;
    }
    for i := 0 to |points| - 1
      invariant points[i].temp < temp
      invariant Speed(points, temp) == Scan(points, temp, i)
    {
      var p, q := points[i], points[i + 1];
      if temp >= p.temp && temp <= q.temp {
        var tempRange := q.temp - p.temp;
        var speedRange := q.speed - p.speed;
        var tempOffset := temp - p.temp;
        return p.speed + (speedRange * tempOffset) / tempRange;
      }
    }
    speed := 100.0;
  }

  lemma {:induction false} SegmentFound(points: Curve, temp: real, i: nat) returns (k: nat)
    requires i < |points| && points[i].temp < temp < points[|points| - 1].temp
    ensures i <= k && k + 1 < |points| && points[k].temp < temp <= points[k + 1].temp
    ensures Scan(points, temp, i) == Interpolate(points[k], points[k + 1], temp)
    ensures forall j :: i < j <= k ==> points[j].temp < temp
    decreases |points| - i
  {
    if temp <= points[i + 1].temp {
      k := i;
    } else {
      k := SegmentFound(points, temp, i + 1);
    }
  }

  /** The speed lies on the straight line through p and q: rises over runs are equal, multiplied out. */
  predicate OnLine(p: Point, q: Point, temp: real, speed: real) {
    (speed - p.speed) * (q.temp - p.temp) == (q.speed - p.speed) * (temp - p.temp)
  }

  lemma InterpolateOnLine(p: Point, q: Point, temp: real)
    requires p.temp < q.temp
    ensures OnLine(p, q, temp, Interpolate(p, q, temp))
  {
    var rise, run := (q.speed - p.speed) * (temp - p.temp), q.temp - p.temp;
    assert (rise / run) * run == rise;
    assert Interpolate(p, q, temp) - p.speed == rise / run;
  }

  /**
   * Strictly inside the curve the speed lies on the line through the two ends of the first segment that ends at or
   * above the temperature, whatever the order of the points.
   */
  lemma SpeedOnSegment(points: Curve, temp: real) returns (k: nat)
    requires points != [] && points[0].temp < temp < points[|points| - 1].temp
    ensures k + 1 < |points| && points[k].temp < temp <= points[k + 1].temp
    ensures forall j :: 0 <= j <= k ==> points[j].temp < temp
    ensures var p, q := points[k], points[k + 1];
      (Speed(points, temp) - p.speed) * (q.temp - p.temp) == (q.speed - p.speed) * (temp - p.temp)
  {
    k := SegmentFound(points, temp, 0);
    InterpolateOnLine(points[k], points[k + 1], temp);
    hide Interpolate, Scan;
    assert Speed(points, temp) == Interpolate(points[k], points[k + 1], temp);
  }

  /** Outside the curve its nearest end answers, and 100 when there is no point at all. */
  lemma SpeedOutside(points: Curve, temp: real)
    ensures points == [] ==> Speed(points, temp) == 100.0
    ensures points != [] && temp <= points[0].temp ==> Speed(points, temp) == points[0].speed
    ensures points != [] && points[0].temp < temp && points[|points| - 1].temp <= temp ==>
      Speed(points, temp) == points[|points| - 1].speed
  {
    hide Scan;
  }

  lemma ShareOfRise(d: real, off: real, r: real)
    requires d >= 0.0 && 0.0 < off <= r
    ensures 0.0 <= (d * off) / r <= d
  {
    TimesOrder(off, r, d);
    ProductNonNegative(d, off);
    QuotientBetween(d * off, d, r);
    QuotientSign(d * off, r);
  }

  lemma ShareOfFall(d: real, off: real, r: real)
    requires d < 0.0 && 0.0 < off <= r
    ensures d <= (d * off) / r <= 0.0
  {
    ShareOfRise(-d, off, r);
    OppositeShare(d, off, r);
  }

  lemma OppositeShare(d: real, off: real, r: real)
    requires r > 0.0
    ensures (-d * off) / r == -((d * off) / r)
  {
    assert -d * off == -(d * off);
  }

  /** Inside a segment the speed stays between its two end speeds. */
  lemma InterpolateBetween(p: Point, q: Point, temp: real, lo: real, hi: real)
    requires p.temp < temp <= q.temp && lo <= p.speed <= hi && lo <= q.speed <= hi
    ensures lo <= Interpolate(p, q, temp) <= hi
  {
    var d, off, r := q.speed - p.speed, temp - p.temp, q.temp - p.temp;
    if d >= 0.0 {
      ShareOfRise(d, off, r);
    } else {
      ShareOfFall(d, off, r);
    }
    assert Interpolate(p, q, temp) == p.speed + (d * off) / r;
    hide Interpolate;
  }

  lemma InterpolateMonotone(p: Point, q: Point, s: real, t: real)
    requires p.temp < q.temp && s <= t && p.speed <= q.speed
    ensures Interpolate(p, q, s) <= Interpolate(p, q, t)
  {
    var d := q.speed - p.speed;
    TimesOrder(s - p.temp, t - p.temp, d);
    QuotientOrder(d * (s - p.temp), d * (t - p.temp), q.temp - p.temp);
  }

  lemma InterpolateEnd(p: Point, q: Point)
    requires p.temp < q.temp
    ensures Interpolate(p, q, q.temp) == q.speed
  {
    var d, r := q.speed - p.speed, q.temp - p.temp;
    assert (d * r) / r == d;
  }

  predicate SpeedsWithin(points: Curve, lo: real, hi: real) {
    forall i :: 0 <= i < |points| ==> lo <= points[i].speed <= hi
  }

  /**
   * Any non-empty curve, sorted or not, answers between its smallest and largest speed; the final 100 is never
   * reached.
   */
  lemma SpeedIsBounded(points: Curve, temp: real, lo: real, hi: real)
    requires points != [] && SpeedsWithin(points, lo, hi)
    ensures lo <= Speed(points, temp) <= hi
  {
    if points[0].temp < temp < points[|points| - 1].temp {
      var k := SegmentFound(points, temp, 0);
      hide Interpolate;
      InterpolateBetween(points[k], points[k + 1], temp, lo, hi);
    }
  }

  predicate SpeedsRise(points: Curve) {
    forall i, j :: 0 <= i <= j < |points| ==> points[i].speed <= points[j].speed
  }

  /** Non-decreasing speeds make the curve monotone in temperature, even when its temperatures are out of order. */
  lemma SpeedIsMonotone(points: Curve, s: real, t: real)
    requires points != [] && SpeedsRise(points) && s <= t
    ensures Speed(points, s) <= Speed(points, t)
  {
    var n := |points| - 1;
    var lo, hi := points[0].speed, points[n].speed;
    assert SpeedsWithin(points, lo, hi);
    SpeedIsBounded(points, s, lo, hi);
    SpeedIsBounded(points, t, lo, hi);
    if points[0].temp < s && t < points[n].temp {
      var k := SegmentFound(points, s, 0);
      var m := SegmentFound(points, t, 0);
      hide Interpolate;
      var p, q := points[k], points[k + 1];
      if k == m {
        InterpolateMonotone(p, q, s, t);
      } else {
        assert k < m;
        InterpolateBetween(p, q, s, p.speed, q.speed);
        InterpolateBetween(points[m], points[m + 1], t, points[m].speed, points[m + 1].speed);
      }
    }
  }

  predicate TempsRise(points: Curve) {
    forall i, j :: 0 <= i < j < |points| ==> points[i].temp < points[j].temp
  }

  /** A curve over distinct sorted temperatures passes through its points. */
  lemma CurveHitsPoints(points: Curve, k: nat)
    requires TempsRise(points) && k < |points|
    ensures Speed(points, points[k].temp) == points[k].speed
  {
    var temp := points[k].temp;
    if 0 < k < |points| - 1 {
      var m := SegmentFound(points, temp, 0);
      assert m == k - 1;
      InterpolateEnd(points[k - 1], points[k]);
    }
  }

  /** Over distinct sorted temperatures the curve is monotone exactly when its speeds never fall. */
  lemma MonotoneIff(points: Curve)
    requires points != [] && TempsRise(points)
    ensures (forall s: real, t: real :: s <= t ==> Speed(points, s) <= Speed(points, t)) <==> SpeedsRise(points)
  {
    hide Speed;
    if SpeedsRise(points) {
      forall s: real, t: real | s <= t
        ensures Speed(points, s) <= Speed(points, t)
      {
        SpeedIsMonotone(points, s, t);
      }
    } else {
      var i, j :| 0 <= i <= j < |points| && points[i].speed > points[j].speed;
      CurveHitsPoints(points, i);
      CurveHitsPoints(points, j);
      assert points[i].temp <= points[j].temp;
      assert Speed(points, points[i].temp) > Speed(points, points[j].temp);
    }
  }

  // ---- PWM values ----

  /** f32::round: half away from zero. */
  function Round(x: real): int {
    if x >= 0.0 then (x + 0.5).Floor else -((-x + 0.5).Floor)
  }

  /** A float cast to u8 saturates. */
  function ToU8(n: int): nat {
    if n < 0 then 0 else if n > 255 then 255 else n
  }

  function PwmOf(speed: real): nat {
    ToU8(Round((speed / 100.0) * 255.0))
  }

  function SpeedOfPwm(pwm: nat): real {
    (pwm as real / 255.0) * 100.0
  }

  lemma RoundNear(x: real)
    ensures x - 0.5 <= Round(x) as real <= x + 0.5
  {
  }

  lemma RoundMonotone(x: real, y: real)
    requires x <= y
    ensures Round(x) <= Round(y)
  {
  }

  /** For a speed in range nothing saturates, and reading the value back is off by at most 100/510 percent. */
  lemma PwmReadsBack(speed: real)
    requires 0.0 <= speed <= 100.0
    ensures PwmOf(speed) <= 255 && PwmOf(speed) == Round((speed / 100.0) * 255.0)
    ensures Abs(SpeedOfPwm(PwmOf(speed)) - speed) <= 100.0 / 510.0
  {
    RoundNear((speed / 100.0) * 255.0);
  }

  /** The value written is the nearest to 255/100 of the speed, the higher one on a tie, cut off at 0 and 255. */
  lemma PwmIsNearest(speed: real)
    ensures speed < 0.0 ==> PwmOf(speed) == 0
    ensures speed > 100.0 ==> PwmOf(speed) == 255
    ensures 0.0 <= speed <= 100.0 ==>
      PwmOf(speed) <= 255 && speed * 255.0 - 50.0 < PwmOf(speed) as real * 100.0 <= speed * 255.0 + 50.0
  {
  }

  /** The percentage shown for a PWM value, of any size: 255 of them make 100. */
  lemma ShownSpeed(pwm: nat)
    ensures SpeedOfPwm(pwm) * 255.0 == pwm as real * 100.0
  {
  }

  lemma PwmIsMonotone(s: real, t: real)
    requires s <= t
    ensures PwmOf(s) <= PwmOf(t)
  {
    RoundMonotone((s / 100.0) * 255.0, (t / 100.0) * 255.0);
  }

  /** The written value never falls as the temperature rises, for any curve whose speeds never fall. */
  lemma PipelineIsMonotone(points: Curve, s: real, t: real)
    requires points != [] && SpeedsRise(points) && s <= t
    ensures PwmOf(Speed(points, s)) <= PwmOf(Speed(points, t))
  {
    SpeedIsMonotone(points, s, t);
    PwmIsMonotone(Speed(points, s), Speed(points, t));
  }

  /** Every PWM value survives the trip through a percentage. */
  lemma PwmRoundTrip(pwm: nat)
    requires pwm <= 255
    ensures 0.0 <= SpeedOfPwm(pwm) <= 100.0 && PwmOf(SpeedOfPwm(pwm)) == pwm
  {
    assert (SpeedOfPwm(pwm) / 100.0) * 255.0 == pwm as real;
  }

  // ---- discovery ----

  datatype Profile = Automatic | Manual | TempControl

  datatype ControlMode = Auto | Pwm | FullSpeed

  datatype FanInfo = FanInfo(
    name: string,
    speedPercent: Option<real>,
    pwmValue: Option<nat>,
    pwmEnable: Option<nat>,
    controlMode: ControlMode,
    controllable: Option<bool>,
    profile: Profile,
    availableProfiles: seq<Profile>,
    rpm: Option<nat>,
    rpmMin: Option<nat>,
    rpmMax: Option<nat>,
    sysfsPath: Option<Path>)

  function NewFan(name: string, dir: Path): FanInfo {
    FanInfo(name, None, None, None, Auto, None, Automatic, [], None, None, None, Some(dir))
  }

  const HWMON: Path := ["sys", "class", "hwmon"]

  const JETSON: seq<Path> := [["sys", "devices", "pwm-fan"], ["sys", "kernel", "debug", "tegra_fan"]]

  /** hwmon_enable_mode. */
  function EnableMode(enable: nat): ControlMode {
    if enable == 0 then FullSpeed else if enable == 1 then Pwm else Auto
  }

  function DeviceName(store: Store, entry: string): string {
    match store.Read(HWMON + [entry, "name"]) case Some(s) => Trim(s) case None => entry
  }

  /** What the PWM file says, if anything. */
  function WithPwm(fan: FanInfo, pwm: Option<nat>): FanInfo {
    match pwm
    case None => fan
    case Some(v) => fan.(pwmValue := Some(v), speedPercent := Some(SpeedOfPwm(v)))
  }

  /** What the enable file says, together with the permission bits of the PWM file. */
  function WithEnable(fan: FanInfo, enable: Option<nat>, writable: Option<bool>): FanInfo {
    match enable
    case None => fan
    case Some(e) =>
      var can := match writable case None => None case Some(w) => Some(e != 0 && w);
      fan.(pwmEnable := Some(e), controlMode := EnableMode(e), controllable := can,
           profile := if EnableMode(e) == Pwm then Manual else fan.profile,
           availableProfiles := if can == Some(true) then [Manual, Automatic] else fan.availableProfiles)
  }

  /** What discovery reads of PWM channel i of the device directory `entry`. */
  function ReadFan(store: Store, entry: string, i: nat): FanInfo {
    var dir, n := HWMON + [entry], Decimal(i);
    var fan := WithPwm(NewFan(DeviceName(store, entry) + "_" + n, dir), store.ReadNumber(dir + ["pwm" + n], U8));
    WithEnable(fan, store.ReadNumber(dir + ["pwm" + n + "_enable"], U8), store.writable(dir + ["pwm" + n]))
    .(rpm := store.ReadNumber(dir + ["fan" + n + "_input"], U32),
      rpmMin := store.ReadNumber(dir + ["fan" + n + "_min"], U32),
      rpmMax := store.ReadNumber(dir + ["fan" + n + "_max"], U32))
  }

  /** Channels 1..k of a device, in order. */
  function ChannelsUpTo(store: Store, entry: string, k: nat): seq<FanInfo> {
    if k == 0 then []
    else
      ChannelsUpTo(store, entry, k - 1)
      + (if HWMON + [entry, "pwm" + Decimal(k)] in store.files then [ReadFan(store, entry, k)] else [])
  }

  function FansOf(store: Store, entries: seq<string>): seq<FanInfo> {
    if entries == [] then []
    else
      var n := |entries| - 1;
      FansOf(store, entries[..n]) + ChannelsUpTo(store, entries[n], 10)
  }

  /** A Jetson duty file may hold more than 255: the value is capped, the percentage is not. */
  function WithTarget(fan: FanInfo, target: Option<nat>): FanInfo {
    match target
    case None => fan
    case Some(v) => fan.(pwmValue := Some(if v < 255 then v else 255), speedPercent := Some(SpeedOfPwm(v)))
  }

  function WithTempControl(fan: FanInfo, present: bool, text: Option<string>): FanInfo {
    if !present then fan
    else
      fan.(profile := match text
                      case None => fan.profile
                      case Some(s) => if Trim(s) == "1" then TempControl else Manual,
           availableProfiles := [Manual, TempControl])
  }

  function ReadJetson(store: Store, dir: Path): FanInfo {
    var fan := WithTarget(NewFan("jetson_fan", dir), store.ReadNumber(dir + ["target_pwm"], U32))
               .(rpm := store.ReadNumber(dir + ["rpm_measured"], U32));
    var control := dir + ["temp_control"];
    WithTempControl(fan, control in store.files, store.Read(control))
    .(controllable := store.writable(dir + ["target_pwm"]))
  }

  ghost function JetsonUpTo(store: Store, k: nat): seq<FanInfo>
    requires k <= |JETSON|
  {
    if k == 0 then []
    else JetsonUpTo(store, k - 1) + (if store.DirExists(JETSON[k - 1]) then [ReadJetson(store, JETSON[k - 1])] else [])
  }

  /** Jetson fans are listed only after a complete hwmon directory, and nothing without one. */
  ghost function Discovered(store: Store): seq<FanInfo> {
    match store.listing(HWMON)
    case None => []
    case Some(entries) =>
      FansOf(store, entries.names) + (if entries.complete then JetsonUpTo(store, |JETSON|) else [])
  }

  /** The hwmon directory exists but cannot be listed, or not to its end. */
  ghost predicate ListingFails(store: Store) {
    match store.listing(HWMON)
    case None => store.DirExists(HWMON)
    case Some(entries) => !entries.complete
  }

  // ---- the monitor ----

  datatype Outcome = Done | InvalidValue | DeviceNotFound | SystemError

  function FindFan(fans: seq<FanInfo>, name: string): Option<FanInfo> {
    if fans == [] then None
    else if fans[0].name == name then Some(fans[0])
    else FindFan(fans[1..], name)
  }

  /** The file a speed is written to: pwm1 if it exists, else target_pwm. */
  function PwmFile(store: Store, dir: Path): Option<Path> {
    if dir + ["pwm1"] in store.files then Some(dir + ["pwm1"])
    else if dir + ["target_pwm"] in store.files then Some(dir + ["target_pwm"])
    else None
  }

  /** linux_set_fan_speed as a step on the file store, for a speed of any size. */
  function WriteStep(store: Store, fans: seq<FanInfo>, name: string, speed: real): (Store, Outcome) {
    match FindFan(fans, name)
    case None => (store, DeviceNotFound)
    case Some(fan) =>
      if fan.sysfsPath.None? then (store, SystemError)
      else
        match PwmFile(store, fan.sysfsPath.value)
        case None => (store, SystemError)
        case Some(file) =>
          var text := Decimal(PwmOf(speed));
          if store.accepts(file, text) then (store.Written(file, text), Done) else (store, SystemError)
  }

  /** set_speed as a step on the file store. */
  function SetSpeedStep(store: Store, fans: seq<FanInfo>, name: string, speed: real): (Store, Outcome) {
    if !(0.0 <= speed <= 100.0) then (store, InvalidValue) else WriteStep(store, fans, name, speed)
  }

  class FanMonitor {
    const fs: Sysfs
    var fans: seq<FanInfo>
    var customCurves: map<string, Curve>

    constructor (fs: Sysfs)
      ensures this.fs == fs && fans == Discovered(fs.store) && customCurves == map[]
    {
      this.fs := fs;
      fans := [];
      customCurves := map[];
      new;
      var r := LinuxDiscoverFans();
    }

    method Refresh() returns (r: Outcome)
      modifies this`fans
      ensures fans == Discovered(fs.store)
      ensures r == if ListingFails(fs.store) then SystemError else Done
    {
      r := LinuxDiscoverFans();
    }

    /** An absent hwmon directory is no error, one that cannot be listed to its end is. */
    method LinuxDiscoverFans() returns (r: Outcome)
      modifies this`fans
      ensures fans == Discovered(fs.store)
      ensures r == if ListingFails(fs.store) then SystemError else Done
    {
      fans := [];
      var listing := fs.store.listing(HWMON);
      if listing.None? {
        return if fs.store.DirExists(HWMON) then SystemError else Done;
      }
      var entries := listing.value.names;
      for e := 0 to |entries|
        invariant fans == FansOf(fs.store, entries[..e])
      {
        ghost var before := fans;
        for i := 1 to 11
          invariant fans == before + ChannelsUpTo(fs.store, entries[e], i - 1)
        {
          if HWMON + [entries[e], "pwm" + Decimal(i)] in fs.store.files {
            var fan := DiscoverChannel(entries[e], i);
            fans := fans + [fan];
          }
        }
        assert entries[..e + 1][..e] == entries[..e];
      }
      assert entries[..|entries|] == entries;
      if !listing.value.complete {
        return SystemError;
      }
      LinuxDiscoverJetsonFans();
      r := Done;
    }

    method DiscoverChannel(entry: string, i: nat) returns (fan: FanInfo)
      ensures fan == ReadFan(fs.store, entry, i)
    {
      var dir, n := HWMON + [entry], Decimal(i);
      fan := NewFan(DeviceName(fs.store, entry) + "_" + n, dir);
      var pwm := fs.store.ReadNumber(dir + ["pwm" + n], U8);
      if pwm.Some? {
        fan := fan.(pwmValue := pwm, speedPercent := Some(SpeedOfPwm(pwm.value)));
      }
      var enable := fs.store.ReadNumber(dir + ["pwm" + n + "_enable"], U8);
      if enable.Some? {
        fan := fan.(pwmEnable := enable, controlMode := EnableMode(enable.value));
        var writable := fs.store.writable(dir + ["pwm" + n]);
        fan := fan.(controllable := match writable case None => None case Some(w) => Some(enable.value != 0 && w));
        if fan.controlMode == Pwm {
          fan := fan.(profile := Manual);
        }
        if fan.controllable == Some(true) {
          fan := fan.(availableProfiles := [Manual, Automatic]);
        }
      }
      fan := fan.(rpm := fs.store.ReadNumber(dir + ["fan" + n + "_input"], U32));
      fan := fan.(rpmMin := fs.store.ReadNumber(dir + ["fan" + n + "_min"], U32));
      fan := fan.(rpmMax := fs.store.ReadNumber(dir + ["fan" + n + "_max"], U32));
    }

    method LinuxDiscoverJetsonFans()
      modifies this`fans
      ensures fans == old(fans) + JetsonUpTo(fs.store, |JETSON|)
    {
      for k := 0 to |JETSON|
        invariant fans == old(fans) + JetsonUpTo(fs.store, k)
      {
        if !fs.store.DirExists(JETSON[k]) {
          continue;
        }
        var fan := DiscoverJetson(JETSON[k]);
        fans := fans + [fan];
      }
    }

    method DiscoverJetson(dir: Path) returns (fan: FanInfo)
      ensures fan == ReadJetson(fs.store, dir)
    {
      fan := NewFan("jetson_fan", dir);
      var target := fs.store.ReadNumber(dir + ["target_pwm"], U32);
      if target.Some? {
        fan := fan.(pwmValue := Some(if target.value < 255 then target.value else 255),
                    speedPercent := Some(SpeedOfPwm(target.value)));
      }
      fan := fan.(rpm := fs.store.ReadNumber(dir + ["rpm_measured"], U32));
      var control := dir + ["temp_control"];
      if control in fs.store.files {
        var text := fs.store.Read(control);
        if text.Some? {
          fan := fan.(profile := if Trim(text.value) == "1" then TempControl else Manual);
        }
        fan := fan.(availableProfiles := [Manual, TempControl]);
      }
      fan := fan.(controllable := fs.store.writable(dir + ["target_pwm"]));
    }

    method SetCurve(name: string, curve: Curve)
      modifies this`customCurves
      ensures customCurves == old(customCurves)[name := curve]
    {
      customCurves := customCurves[name := curve];
    }

    method SetSpeed(name: string, speed: real) returns (r: Outcome)
      modifies fs
      ensures (fs.store, r) == SetSpeedStep(old(fs.store), fans, name, speed)
    {
      if !(0.0 <= speed <= 100.0) {
        return InvalidValue;
      }
      r := LinuxSetFanSpeed(name, speed);
    }

    method LinuxSetFanSpeed(name: string, speed: real) returns (r: Outcome)
      modifies fs
      ensures (fs.store, r) == WriteStep(old(fs.store), fans, name, speed)
    {
      var fan := FindFan(fans, name);
      if fan.None? {
        return DeviceNotFound;
      }
      if fan.value.sysfsPath.None? {
        return SystemError;
      }
      var pwm := PwmOf(speed);
      var file := PwmFile(fs.store, fan.value.sysfsPath.value);
      if file.None? {
        return SystemError;
      }
      var ok := fs.Write(file.value, Decimal(pwm));
      r := if ok then Done else SystemError;
    }

    method SetPwm(name: string, pwm: nat) returns (r: Outcome)
      requires pwm <= 255
      modifies fs
      ensures (fs.store, r) == SetSpeedStep(old(fs.store), fans, name, SpeedOfPwm(pwm))
    {
      r := SetSpeed(name, SpeedOfPwm(pwm));
    }

    method ApplyCurve(name: string, temp: real) returns (r: Outcome)
      modifies fs
      ensures name !in customCurves ==> r == Done && fs.store == old(fs.store)
      ensures name in customCurves ==>
        (fs.store, r) == SetSpeedStep(old(fs.store), fans, name, Speed(customCurves[name], temp))
    {
      if name in customCurves {
        var target := CalculateSpeed(customCurves[name], temp);
        r := SetSpeed(name, target);
      } else {
        r := Done;
      }
    }
  }

  // ---- laws of the writes ----

  /** A curve whose speeds lie in 0..100 never trips the range check. */
  lemma CurveNeverRejected(store: Store, fans: seq<FanInfo>, name: string, points: Curve, temp: real)
    requires SpeedsWithin(points, 0.0, 100.0)
    ensures SetSpeedStep(store, fans, name, Speed(points, temp)).1 != InvalidValue
  {
    if points == [] {
    } else {
      SpeedIsBounded(points, temp, 0.0, 100.0);
    }
    hide Speed, PwmOf, PwmFile, FindFan;
  }

  /** One existing file now holds a PWM value in range that stands for the speed to within 100/510 percent. */
  ghost predicate IsWriteOf(before: Store, after: Store, file: Path, pwm: nat, speed: real) {
    && file in before.files
    && pwm <= 255
    && after == before.Written(file, Decimal(pwm))
    && ParseUnsigned(Trim(after.files[file]), 10, U8) == Some(pwm)
    && Abs(SpeedOfPwm(pwm) - speed) <= 100.0 / 510.0
  }

  /**
   * What a write of any speed leaves behind: nothing on failure, one PWM file on success, read back within 100/510
   * percent.
   */
  lemma WriteEffect(store: Store, fans: seq<FanInfo>, name: string, speed: real)
    ensures var (after, r) := SetSpeedStep(store, fans, name, speed);
      && (r != Done ==> after == store)
      && (r == InvalidValue <==> !(0.0 <= speed <= 100.0))
      && (r == Done ==> (exists file, pwm: nat :: IsWriteOf(store, after, file, pwm, speed)))
  {
    var (after, r) := SetSpeedStep(store, fans, name, speed);
    if r == Done {
      PwmReadsBack(speed);
      hide PwmOf, SpeedOfPwm;
      var fan := FindFan(fans, name).value;
      var file := PwmFile(store, fan.sysfsPath.value).value;
      DecimalRoundTrip(PwmOf(speed), U8);
      assert IsWriteOf(store, after, file, PwmOf(speed), speed);
    }
  }

  /** The file a write to this fan goes to. */
  function WriteTarget(store: Store, fans: seq<FanInfo>, name: string): Option<Path> {
    match FindFan(fans, name)
    case None => None
    case Some(fan) => if fan.sysfsPath.None? then None else PwmFile(store, fan.sysfsPath.value)
  }

  /**
   * set_pwm(v) succeeds exactly when the fan has a file that takes the text of v, and then writes exactly v to it:
   * the next discovery reads exactly v from a hwmon pwm1 or a Jetson target_pwm.
   */
  lemma SetPwmIsExact(store: Store, fans: seq<FanInfo>, name: string, pwm: nat)
    requires pwm <= 255
    ensures var (after, r) := SetSpeedStep(store, fans, name, SpeedOfPwm(pwm));
      var target := WriteTarget(store, fans, name);
      && (r == Done <==> target.Some? && store.accepts(target.value, Decimal(pwm)))
      && (r == Done ==> after == store.Written(target.value, Decimal(pwm)))
      && (r == Done && store.readable(target.value) ==>
            && (forall entry :: target.value == HWMON + [entry, "pwm1"] ==> ShowsPwm(ReadFan(after, entry, 1), pwm))
            && (forall dir :: target.value == dir + ["target_pwm"] ==> ShowsPwm(ReadJetson(after, dir), pwm)))
  {
    PwmRoundTrip(pwm);
    hide PwmOf, SpeedOfPwm;
    var (after, r) := SetSpeedStep(store, fans, name, SpeedOfPwm(pwm));
    var target := WriteTarget(store, fans, name);
    if r == Done && store.readable(target.value) {
      hide FindFan, PwmFile, WriteTarget, SetSpeedStep;
      forall entry | target.value == HWMON + [entry, "pwm1"]
        ensures ShowsPwm(ReadFan(after, entry, 1), pwm)
      {
        ChannelReadsBack(after, entry, pwm);
      }
      forall dir | target.value == dir + ["target_pwm"]
        ensures ShowsPwm(ReadJetson(after, dir), pwm)
      {
        JetsonReadsBack(after, dir, pwm);
      }
    }
  }

  predicate ShowsPwm(fan: FanInfo, pwm: nat) {
    fan.pwmValue == Some(pwm) && fan.speedPercent == Some(SpeedOfPwm(pwm))
  }

  lemma NumberReadsBack(store: Store, path: Path, pwm: nat, limit: nat)
    requires store.Read(path) == Some(Decimal(pwm)) && pwm < limit
    ensures store.ReadNumber(path, limit) == Some(pwm)
  {
    DecimalRoundTrip(pwm, limit);
    hide ParseUnsigned, Trim, Decimal;
  }

  lemma ChannelReadsBack(store: Store, entry: string, pwm: nat)
    requires pwm <= 255 && store.Read(HWMON + [entry, "pwm1"]) == Some(Decimal(pwm))
    ensures ShowsPwm(ReadFan(store, entry, 1), pwm)
  {
    var file := HWMON + [entry] + ["pwm1"];
    assert file == HWMON + [entry, "pwm1"];
    NumberReadsBack(store, file, pwm, U8);
    assert Decimal(1) == "1" && "pwm" + Decimal(1) == "pwm1";
    hide Store.ReadNumber, Decimal, SpeedOfPwm, DeviceName;
  }

  lemma JetsonReadsBack(store: Store, dir: Path, pwm: nat)
    requires pwm <= 255 && store.Read(dir + ["target_pwm"]) == Some(Decimal(pwm))
    ensures ShowsPwm(ReadJetson(store, dir), pwm)
  {
    NumberReadsBack(store, dir + ["target_pwm"], pwm, U32);
    hide Store.ReadNumber, Decimal, SpeedOfPwm;
  }

  /** A Jetson duty value is shown unchanged exactly up to 255; above that the shown speed exceeds 100 percent. */
  lemma JetsonCap(store: Store, dir: Path, duty: nat)
    requires store.ReadNumber(dir + ["target_pwm"], U32) == Some(duty)
    ensures var fan := ReadJetson(store, dir);
      && fan.pwmValue.Some? && fan.speedPercent.Some? && fan.pwmValue.value <= 255
      && (fan.speedPercent.value == SpeedOfPwm(fan.pwmValue.value) <==> duty <= 255)
      && (fan.speedPercent.value <= 100.0 <==> duty <= 255)
  {
    hide Store.ReadNumber;
  }
}
