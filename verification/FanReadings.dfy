/** What fan discovery lists and shows of the files under sysfs, and which file a speed is written to. */
module FanReadings {
  import opened FileStore
  import opened Reals
  import opened Text
  import opened FanControl

  // ---- one fan ----

  function Device(entry: string, file: string): Path {
    ["sys", "class", "hwmon", entry, file]
  }

  lemma DevicePath(entry: string, file: string)
    ensures HWMON + [entry] + [file] == Device(entry, file)
    ensures HWMON + [entry, file] == Device(entry, file)
  {
  }

  /** A fan is named after its device, or after its directory when that has no readable name, and its channel. */
  lemma ChannelName(store: Store, entry: string, i: nat)
    ensures var fan, file := ReadFan(store, entry, i), Device(entry, "name");
      && (Silent(store, file) ==> fan.name == entry + "_" + Decimal(i))
      && (!Silent(store, file) ==> fan.name == Trim(store.files[file]) + "_" + Decimal(i))
      && fan.sysfsPath == Some(["sys", "class", "hwmon", entry])
  {
    DevicePath(entry, "name");
    assert HWMON + [entry] == ["sys", "class", "hwmon", entry];
    hide Decimal, Trim, Store.ReadNumber, SpeedOfPwm;
  }

  /** The PWM value of a channel and its share of 255 in percent; both are unknown together. */
  lemma ChannelPwm(store: Store, entry: string, i: nat, v: nat)
    ensures var fan, file := ReadFan(store, entry, i), Device(entry, "pwm" + Decimal(i));
      && (Holds(store, file, v) && v < 256 ==>
            fan.pwmValue == Some(v) && fan.speedPercent.Some? && fan.speedPercent.value * 255.0 == v as real * 100.0)
      && (Silent(store, file) || (Holds(store, file, v) && v >= 256) ==>
            fan.pwmValue == None && fan.speedPercent == None)
  {
    var file := Device(entry, "pwm" + Decimal(i));
    DevicePath(entry, "pwm" + Decimal(i));
    ReadingOf(store, file, v, U8);
    ShownSpeed(v);
    hide Decimal, Trim, Store.ReadNumber, SpeedOfPwm, DeviceName, Device, Holds, Silent;
  }

  /**
   * The control mode of a channel: 0 is full speed, 1 is manual and everything else automatic. The fan takes commands
   * only if the mode is not 0 and the PWM file's permission bits allow it, and nothing is claimed when they are
   * unknown.
   */
  lemma ChannelEnable(store: Store, entry: string, i: nat, e: nat)
    requires Holds(store, Device(entry, "pwm" + Decimal(i) + "_enable"), e) && e < 256
    ensures var fan, bits := ReadFan(store, entry, i), store.writable(Device(entry, "pwm" + Decimal(i)));
      && fan.pwmEnable == Some(e)
      && (fan.controlMode == FullSpeed <==> e == 0) && (fan.controlMode == Pwm <==> e == 1)
      && (fan.profile == Manual <==> e == 1) && (fan.profile == Automatic <==> e != 1)
      && (fan.controllable == None <==> bits == None)
      && (fan.controllable == Some(true) <==> e > 0 && bits == Some(true))
      && fan.availableProfiles == if e > 0 && bits == Some(true) then [Manual, Automatic] else []
  {
    DevicePath(entry, "pwm" + Decimal(i) + "_enable");
    DevicePath(entry, "pwm" + Decimal(i));
    ReadingOf(store, Device(entry, "pwm" + Decimal(i) + "_enable"), e, U8);
    hide Decimal, Trim, Store.ReadNumber, SpeedOfPwm, DeviceName, Device, Holds, Silent;
  }

  /** Without a readable mode nothing is known of it. */
  lemma ChannelNoEnable(store: Store, entry: string, i: nat)
    requires Silent(store, Device(entry, "pwm" + Decimal(i) + "_enable"))
    ensures var fan := ReadFan(store, entry, i);
      && fan.pwmEnable == None && fan.controlMode == Auto && fan.profile == Automatic
      && fan.controllable == None && fan.availableProfiles == []
  {
    DevicePath(entry, "pwm" + Decimal(i) + "_enable");
    ReadingOf(store, Device(entry, "pwm" + Decimal(i) + "_enable"), 0, U8);
    hide Decimal, Trim, Store.ReadNumber, SpeedOfPwm, DeviceName, Device, Holds, Silent;
  }

  /** The three speeds in turns per minute are the numbers in the channel's own three files. */
  lemma ChannelRpm(store: Store, entry: string, i: nat)
    ensures var fan, n := ReadFan(store, entry, i), Decimal(i);
      && Mirrors(store, Device(entry, "fan" + n + "_input"), 0x1_0000_0000, fan.rpm)
      && Mirrors(store, Device(entry, "fan" + n + "_min"), 0x1_0000_0000, fan.rpmMin)
      && Mirrors(store, Device(entry, "fan" + n + "_max"), 0x1_0000_0000, fan.rpmMax)
  {
    var n := Decimal(i);
    DevicePath(entry, "fan" + n + "_input");
    DevicePath(entry, "fan" + n + "_min");
    DevicePath(entry, "fan" + n + "_max");
    NumberMirrors(store, Device(entry, "fan" + n + "_input"), U32);
    NumberMirrors(store, Device(entry, "fan" + n + "_min"), U32);
    NumberMirrors(store, Device(entry, "fan" + n + "_max"), U32);
    hide Decimal, Trim, Store.ReadNumber, SpeedOfPwm, DeviceName, Device, Mirrors;
  }

  /** What is shown of a Jetson directory. */
  lemma JetsonReads(store: Store, dir: Path, v: nat)
    ensures var fan, target, control := ReadJetson(store, dir), dir + ["target_pwm"], dir + ["temp_control"];
      && fan.name == "jetson_fan" && fan.sysfsPath == Some(dir)
      && (Holds(store, target, v) && v < 0x1_0000_0000 ==>
            && fan.pwmValue == Some(if v <= 255 then v else 255)
            && fan.speedPercent.Some? && fan.speedPercent.value * 255.0 == v as real * 100.0)
      && (Silent(store, target) ==> fan.pwmValue == None && fan.speedPercent == None)
      && Mirrors(store, dir + ["rpm_measured"], 0x1_0000_0000, fan.rpm)
      && fan.controllable == store.writable(target)
      && (control !in store.files ==> fan.profile == Automatic && fan.availableProfiles == [])
      && (control in store.files ==>
            && fan.availableProfiles == [Manual, TempControl]
            && (fan.profile == Automatic <==> !store.readable(control))
            && (fan.profile == TempControl <==> store.readable(control) && Trim(store.files[control]) == "1"))
  {
    ReadingOf(store, dir + ["target_pwm"], v, U32);
    NumberMirrors(store, dir + ["rpm_measured"], U32);
    ShownSpeed(v);
    hide Decimal, Trim, Store.ReadNumber, SpeedOfPwm, Holds, Silent, Mirrors;
  }

  // ---- what is listed ----

  /** The fan is what discovery reads of this channel of this directory. */
  predicate IsChannel(store: Store, entry: string, i: nat, fan: FanInfo) {
    Device(entry, "pwm" + Decimal(i)) in store.files && fan == ReadFan(store, entry, i)
  }

  predicate HasChannel(store: Store, entry: string, last: nat, fan: FanInfo) {
    exists i :: 1 <= i <= last && IsChannel(store, entry, i, fan)
  }

  lemma {:induction false} ChannelListed(store: Store, entry: string, k: nat, fan: FanInfo)
    ensures fan in ChannelsUpTo(store, entry, k) <==> HasChannel(store, entry, k, fan)
  {
    if k == 0 {
      assert ChannelsUpTo(store, entry, 0) == [];
    } else {
      ChannelListed(store, entry, k - 1, fan);
      DevicePath(entry, "pwm" + Decimal(k));
      hide Decimal, ReadFan, Device;
      if fan in ChannelsUpTo(store, entry, k) && fan !in ChannelsUpTo(store, entry, k - 1) {
        assert IsChannel(store, entry, k, fan);
      }
    }
  }

  lemma {:induction false} DeviceListed(store: Store, entries: seq<string>, fan: FanInfo)
    ensures fan in FansOf(store, entries) <==>
      exists entry :: entry in entries && HasChannel(store, entry, 10, fan)
  {
    if entries == [] {
    } else {
      var n := |entries| - 1;
      DeviceListed(store, entries[..n], fan);
      ChannelListed(store, entries[n], 10, fan);
      hide ChannelsUpTo, HasChannel;
      assert forall entry :: entry in entries <==> entry in entries[..n] || entry == entries[n];
    }
  }

  predicate HasDuty(store: Store, entry: string, i: nat) {
    Device(entry, "pwm" + Decimal(i)) in store.files
  }

  /** The channels below k that have a PWM file. */
  function Below(store: Store, entry: string, k: nat): set<nat> {
    set i: nat | 1 <= i < k && HasDuty(store, entry, i)
  }

  lemma BelowNext(store: Store, entry: string, k: nat)
    requires k > 0
    ensures |Below(store, entry, k + 1)| == |Below(store, entry, k)| + if HasDuty(store, entry, k) then 1 else 0
  {
    hide HasDuty;
    var before, now := Below(store, entry, k), Below(store, entry, k + 1);
    assert now == if HasDuty(store, entry, k) then before + {k} else before;
  }

  lemma ChannelsNext(store: Store, entry: string, k: nat)
    requires k > 0
    ensures ChannelsUpTo(store, entry, k)
         == ChannelsUpTo(store, entry, k - 1) + if HasDuty(store, entry, k) then [ReadFan(store, entry, k)] else []
  {
    DevicePath(entry, "pwm" + Decimal(k));
    hide ReadFan, Decimal, Device;
  }

  /** The channel's reading stands right after those of the channels below it. */
  predicate IsPlaced(store: Store, entry: string, fans: seq<FanInfo>, i: nat) {
    var place := |Below(store, entry, i)|;
    place < |fans| && fans[place] == ReadFan(store, entry, i)
  }

  /** Each channel of a directory that has a PWM file is listed once, in order. */
  lemma {:induction false} ChannelPlace(store: Store, entry: string, k: nat)
    ensures |ChannelsUpTo(store, entry, k)| == |Below(store, entry, k + 1)|
    ensures forall i: nat :: 1 <= i <= k && HasDuty(store, entry, i) ==>
      IsPlaced(store, entry, ChannelsUpTo(store, entry, k), i)
  {
    if k == 0 {
      assert Below(store, entry, 1) == {};
    } else {
      ChannelPlace(store, entry, k - 1);
      ChannelsNext(store, entry, k);
      BelowNext(store, entry, k);
      var before, now := ChannelsUpTo(store, entry, k - 1), ChannelsUpTo(store, entry, k);
      hide ReadFan, Below, HasDuty, ChannelsUpTo, IsPlaced;
      forall i: nat | 1 <= i < k && HasDuty(store, entry, i)
        ensures IsPlaced(store, entry, now, i)
      {
        StaysPlaced(store, entry, before, now, i);
      }
      if HasDuty(store, entry, k) {
        LastPlaced(store, entry, now, k);
      }
    }
  }

  lemma StaysPlaced(store: Store, entry: string, before: seq<FanInfo>, now: seq<FanInfo>, i: nat)
    requires IsPlaced(store, entry, before, i) && before <= now
    ensures IsPlaced(store, entry, now, i)
  {
    hide ReadFan, Below;
  }

  lemma LastPlaced(store: Store, entry: string, fans: seq<FanInfo>, i: nat)
    requires |fans| == |Below(store, entry, i)| + 1 && fans[|fans| - 1] == ReadFan(store, entry, i)
    ensures IsPlaced(store, entry, fans, i)
  {
    hide ReadFan, Below;
  }

  /** Directories are listed one after another. */
  lemma {:induction false} DevicesConcat(store: Store, a: seq<string>, b: seq<string>)
    ensures FansOf(store, a + b) == FansOf(store, a) + FansOf(store, b)
  {
    if b == [] {
      assert a + b == a;
    } else {
      var n := |b| - 1;
      assert (a + b)[..|a| + n] == a + b[..n];
      DevicesConcat(store, a, b[..n]);
      hide ChannelsUpTo;
    }
  }

  lemma DeviceFans(store: Store, entry: string)
    ensures FansOf(store, [entry]) == ChannelsUpTo(store, entry, 10)
  {
    assert [entry][..0] == [];
    assert FansOf(store, []) == [];
    hide ChannelsUpTo;
    assert FansOf(store, [entry]) == FansOf(store, [entry][..0]) + ChannelsUpTo(store, [entry][0], 10);
  }

  ghost predicate IsJetson(store: Store, fan: FanInfo) {
    || (store.DirExists(["sys", "devices", "pwm-fan"]) && fan == ReadJetson(store, ["sys", "devices", "pwm-fan"]))
    || (store.DirExists(["sys", "kernel", "debug", "tegra_fan"])
        && fan == ReadJetson(store, ["sys", "kernel", "debug", "tegra_fan"]))
  }

  lemma JetsonListed(store: Store, fan: FanInfo)
    ensures fan in JetsonUpTo(store, |JETSON|) <==> IsJetson(store, fan)
  {
    hide ReadJetson, Store.DirExists;
    assert JetsonUpTo(store, 0) == [];
    assert JetsonUpTo(store, 1)
        == if store.DirExists(JETSON[0]) then [ReadJetson(store, JETSON[0])] else [];
    assert JetsonUpTo(store, 2)
        == JetsonUpTo(store, 1) + if store.DirExists(JETSON[1]) then [ReadJetson(store, JETSON[1])] else [];
  }

  /**
   * Exactly these fans are listed: the channels 1 to 10 with a PWM file of every directory that was delivered, and,
   * only after a complete listing, the two Jetson directories.
   */
  lemma ListedIff(store: Store, fan: FanInfo)
    ensures var listing := store.listing(["sys", "class", "hwmon"]);
      fan in Discovered(store) <==>
        && listing.Some?
        && ((exists entry :: entry in listing.value.names && HasChannel(store, entry, 10, fan))
            || (listing.value.complete && IsJetson(store, fan)))
  {
    var listing := store.listing(HWMON);
    JetsonListed(store, fan);
    if listing.Some? {
      DeviceListed(store, listing.value.names, fan);
    }
    hide IsJetson, FansOf, JetsonUpTo, HasChannel;
  }

  // ---- where a speed is written ----

  /** The first fan of this name. */
  predicate IsFirst(fans: seq<FanInfo>, name: string, i: nat) {
    i < |fans| && fans[i].name == name && forall j :: 0 <= j < i ==> fans[j].name != name
  }

  lemma {:induction false} FindFanIs(fans: seq<FanInfo>, name: string)
    ensures FindFan(fans, name).None? <==> forall i :: 0 <= i < |fans| ==> fans[i].name != name
    ensures FindFan(fans, name).Some? ==>
      exists i: nat :: IsFirst(fans, name, i) && FindFan(fans, name) == Some(fans[i])
  {
    if fans == [] {
    } else if fans[0].name == name {
      assert IsFirst(fans, name, 0);
    } else {
      FindFanIs(fans[1..], name);
      if FindFan(fans, name).Some? {
        var i: nat :| IsFirst(fans[1..], name, i) && FindFan(fans[1..], name) == Some(fans[1..][i]);
        assert IsFirst(fans, name, i + 1);
      }
      forall i | 0 <= i < |fans| && FindFan(fans, name).None?
        ensures fans[i].name != name
      {
        assert i > 0 ==> fans[i] == fans[1..][i - 1];
      }
    }
  }

  /** A fan's duty file: pwm1 of its directory, or target_pwm when there is no pwm1. */
  predicate IsDutyFile(store: Store, fan: FanInfo, file: Path) {
    && fan.sysfsPath.Some? && file in store.files
    && var dir := fan.sysfsPath.value;
       file == dir + ["pwm1"] || (dir + ["pwm1"] !in store.files && file == dir + ["target_pwm"])
  }

  /** The first fan of this name has this duty file, and it takes this text. */
  predicate WritesTo(store: Store, fans: seq<FanInfo>, name: string, i: nat, file: Path, text: string) {
    IsFirst(fans, name, i) && IsDutyFile(store, fans[i], file) && store.accepts(file, text)
  }

  lemma FirstIsUnique(fans: seq<FanInfo>, name: string, i: nat, j: nat)
    requires IsFirst(fans, name, i) && IsFirst(fans, name, j)
    ensures i == j
  {
  }

  /**
   * Each outcome of set_speed: a speed out of range is refused first, then a name no fan has; otherwise the first fan
   * of that name decides, and exactly its duty file is written, with the nearest value.
   */
  lemma SetSpeedIff(store: Store, fans: seq<FanInfo>, name: string, speed: real)
    ensures var (after, r) := SetSpeedStep(store, fans, name, speed);
      var text := Decimal(PwmOf(speed));
      && (r == InvalidValue <==> speed < 0.0 || speed > 100.0)
      && (r == DeviceNotFound <==> 0.0 <= speed <= 100.0 && forall i :: 0 <= i < |fans| ==> fans[i].name != name)
      && (r == Done <==> 0.0 <= speed <= 100.0 && exists i: nat, file :: WritesTo(store, fans, name, i, file, text))
      && (r != Done ==> after == store)
      && forall i: nat, file :: r == Done && WritesTo(store, fans, name, i, file, text) ==>
           after == store.(files := store.files[file := text])
  {
    var text := Decimal(PwmOf(speed));
    FindFanIs(fans, name);
    hide Decimal, PwmOf, FindFan;
    if 0.0 <= speed <= 100.0 && FindFan(fans, name).Some? {
      var i: nat :| IsFirst(fans, name, i) && FindFan(fans, name) == Some(fans[i]);
      WriteIs(store, fans, name, i, speed);
      hide IsFirst, IsDutyFile, WriteStep;
      if file :| IsDutyFile(store, fans[i], file) && store.accepts(file, text) {
        assert WritesTo(store, fans, name, i, file, text);
      }
      forall j: nat, file | WritesTo(store, fans, name, j, file, text)
        ensures j == i
      {
        FirstIsUnique(fans, name, i, j);
      }
    } else {
      hide IsDutyFile;
    }
  }

  lemma WriteIs(store: Store, fans: seq<FanInfo>, name: string, i: nat, speed: real)
    requires IsFirst(fans, name, i) && FindFan(fans, name) == Some(fans[i])
    ensures var (after, r) := WriteStep(store, fans, name, speed);
      var text := Decimal(PwmOf(speed));
      && (r == Done || r == SystemError)
      && (r == Done <==> exists file :: IsDutyFile(store, fans[i], file) && store.accepts(file, text))
      && (r != Done ==> after == store)
      && forall file :: r == Done && IsDutyFile(store, fans[i], file) ==>
           after == store.(files := store.files[file := text])
  {
    var fan := fans[i];
    hide Decimal, PwmOf, FindFan, IsFirst;
    if fan.sysfsPath.Some? && PwmFile(store, fan.sysfsPath.value).Some? {
      assert IsDutyFile(store, fan, PwmFile(store, fan.sysfsPath.value).value);
    }
  }
}
