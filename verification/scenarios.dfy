/**
 * The behaviours the repository's tests exercise (tests/schedule_test.py
 * and tests/test_api.py), stated on the model for their concrete data.
 */
module Scenarios {
  import opened Wrappers
  import opened FixedZones
  import Sorting
  import Schedules
  import ScheduleRanges
  import Profiles
  import NightscoutApi
  import Records
  import Text
  import ScheduleEntries
  import Readings

  /** `Etc/GMT+5`, five hours behind UTC (also US/Central in daylight time). */
  const Gmt5: Zone := -5 * Hour

  const StepSchedule: Schedules.Schedule := Schedules.Schedule(
    [Schedules.ScheduleEntry(0, 1.0), Schedules.ScheduleEntry(6 * Hour, 0.7),
     Schedules.ScheduleEntry(12 * Hour, 0.8), Schedules.ScheduleEntry(22 * Hour, 0.9)],
    Gmt5)

  /**
   * 2017-07-07 20:00 UTC to 2017-07-08 06:00 UTC: the entry in effect at the
   * start (12:00 local), the 22:00 change point and the next local midnight.
   */
  lemma BetweenExample()
    ensures Schedules.Between(StepSchedule, 1499457600000, 1499493600000)
            == [Schedules.AbsoluteScheduleEntry(1499446800000, 0.8),
                Schedules.AbsoluteScheduleEntry(1499482800000, 0.9),
                Schedules.AbsoluteScheduleEntry(1499490000000, 1.0)]
  {
    var e := StepSchedule.entries;
    var reference := 1499403600000;
    var midnight := 1499490000000;
    assert Midnight(Gmt5, 1499457600000) == reference;
    assert Midnight(Gmt5, midnight) == midnight;
    assert Schedules.WindowEnd(e, Day, 0) == 4 by {
      Schedules.WindowEndAt(e, Day, 0, 4);
    }
    assert Schedules.WindowStart(e, 15 * Hour, 4) == 2;
    assert Schedules.Between(StepSchedule, 1499457600000, midnight)
           == Schedules.Anchor(e, 2, 4, reference);
    assert Schedules.WindowEnd(e, Hour, 0) == 1 by {
      Schedules.WindowEndAt(e, Hour, 0, 1);
    }
    assert Schedules.WindowStart(e, 0, 1) == 0;
    assert Schedules.Between(StepSchedule, midnight, 1499493600000)
           == Schedules.Anchor(e, 0, 1, midnight);
  }

  // ------------------------------------------------------------ entries

  /** `float("0.6")`. */
  lemma ParseSixTenths()
    ensures Text.ParseFloat("0.6") == Some(0.6)
  {
    assert Text.Magnitude("0.6") == "0.6";
    assert Text.Split("0.6", '.') == ["0", "6"] by {
      assert Text.Join(["0", "6"], '.') == "0.6";
      Text.SplitJoin(["0", "6"], '.');
    }
    assert Text.DigitsValue("0") == 0 && Text.DigitsValue("6") == 6 by {
      assert "0"[..0] == [] && "6"[..0] == [];
    }
    assert Text.Fraction("6") == 0.6;
  }

  /** The clock text `"17:00"`: 17 hours into the day. */
  lemma ClockOffsetExample(json: Records.JsonDict)
    requires Records.Get(json, "timeAsSeconds") == Records.Null && Records.Get(json, "time") == Records.Str("17:00")
    ensures ScheduleEntries.EntryOffset(json) == Ok(17 * Hour)
  {
    assert "17:00" == "17" + ":" + "00";
    assert Text.DigitsValue("17") == 17 && Text.DigitsValue("00") == 0 by {
      assert "17"[..1] == "1" && "1"[..0] == [] && "00"[..1] == "0" && "0"[..0] == [];
    }
    ScheduleEntries.OffsetFromClockText(json, "17", "00");
  }

  /** The seconds text `"61200"`: 17 hours into the day. */
  lemma SecondsOffsetExample(json: Records.JsonDict)
    requires Records.Get(json, "timeAsSeconds") == Records.Str("61200")
    ensures ScheduleEntries.EntryOffset(json) == Ok(17 * Hour)
  {
    assert Text.DecimalString(61200) == "61200";
    ScheduleEntries.OffsetFromSecondsText(json, 61200);
  }

  /** The value text `"0.6"`. */
  lemma EntryValueExample(json: Records.JsonDict)
    requires Records.Get(json, "value") == Records.Str("0.6")
    ensures ScheduleEntries.EntryValue(json) == Ok(0.6)
  {
    ParseSixTenths();
  }

  /**
   * The stored change point `{"time": "17:00", "value": "0.6",
   * "timeAsSeconds": "61200"}` decodes to an entry 17 hours into the day
   * with value 0.6 ...
   */
  lemma EntryExample()
    ensures ScheduleEntries.EntryFromJson(
              map["time" := Records.Str("17:00"), "value" := Records.Str("0.6"),
                  "timeAsSeconds" := Records.Str("61200")])
            == Ok(Schedules.ScheduleEntry(17 * Hour, 0.6))
  {
    var json := map["time" := Records.Str("17:00"), "value" := Records.Str("0.6"),
                    "timeAsSeconds" := Records.Str("61200")];
    EntryValueExample(json);
    SecondsOffsetExample(json);
  }

  /** ... and so does it without `timeAsSeconds`, from the clock text. */
  lemma ClockEntryExample()
    ensures ScheduleEntries.EntryFromJson(map["time" := Records.Str("17:00"), "value" := Records.Str("0.6")])
            == Ok(Schedules.ScheduleEntry(17 * Hour, 0.6))
  {
    var json := map["time" := Records.Str("17:00"), "value" := Records.Str("0.6")];
    EntryValueExample(json);
    ClockOffsetExample(json);
  }

  // ------------------------------------------------------------ profiles

  /**
   * The stored basal schedules: they differ only in the rate from 17:00
   * on, 0.4 in the definition of 2017-03-24 and 0.6 in the older ones.
   */
  function Basal(evening: real): Schedules.Schedule {
    Schedules.Schedule(
      [Schedules.ScheduleEntry(0, 0.45), Schedules.ScheduleEntry(2 * Hour, 0.3),
       Schedules.ScheduleEntry(4 * Hour + 30 * Minute, 0.45), Schedules.ScheduleEntry(7 * Hour, 0.6),
       Schedules.ScheduleEntry(10 * Hour, 0.4), Schedules.ScheduleEntry(12 * Hour, 0.4),
       Schedules.ScheduleEntry(15 * Hour, 0.4), Schedules.ScheduleEntry(17 * Hour, evening),
       Schedules.ScheduleEntry(20 * Hour + 30 * Minute, evening)],
      Gmt5)
  }

  function BasalProfile(basal: Schedules.Schedule, dia: real): Profiles.Profile {
    Profiles.Profile(Some(dia), None, None, None, None, Gmt5, basal, None, None)
  }

  /**
   * A definition with one profile named `Default`. The stored definitions
   * each have their own `created_at`; it plays no part in the lookup, so
   * here it is set to the start date.
   */
  function Definition(startDate: Instant, basal: Schedules.Schedule): Profiles.ProfileDefinition {
    Profiles.ProfileDefinition("Default", map["Default" := BasalProfile(basal, 4.0)],
                               startDate, startDate, "mg/dl")
  }

  /** Started 2017-03-24 03:54, 2017-03-02 01:37 and 2016-04-22 05:06 UTC, in the server's order. */
  const Stored: seq<Profiles.ProfileDefinition> :=
    [Definition(1490327640000, Basal(0.4)), Definition(1488418620000, Basal(0.6)),
     Definition(1461301560000, Basal(0.6))]

  /**
   * On 2017-03-05 the definition of 2017-03-02 is in effect, whatever the
   * order the server sent the definitions in.
   */
  lemma ActiveProfileExample()
    ensures Profiles.ActiveAt(Profiles.ProfileDefinitionSet(Sorting.SortBy(Stored, Profiles.StartDate)),
                              1488672000000)
            == Ok(Stored[1])
  {
    var s := Profiles.ProfileDefinitionSet(Sorting.SortBy(Stored, Profiles.StartDate));
    Profiles.ActiveAtOfInputSucceeds(Stored, 1488672000000);
    assert Stored[1].startDate <= 1488672000000;
    Profiles.ActiveAtOfInputGreatest(Stored, 1488672000000);
  }

  /**
   * In the default profile of that definition, 17:30 local time on
   * 2017-03-24 (22:30 UTC) falls after the 17:00 change point: basal 0.6.
   */
  lemma BasalExample()
    ensures Profiles.GetDefaultProfile(Stored[1]).Ok?
    ensures var basal := Profiles.GetDefaultProfile(Stored[1]).value.basal;
            Schedules.ValueAtDate(basal, Schedules.LocalDateTime(1490394600000, Gmt5)) == Ok(0.6)
  {
    assert Schedules.Valid(Basal(0.6));
    assert TimeOfDay(Gmt5, 1490394600000) == 17 * Hour + 30 * Minute;
    Schedules.ValueAtDateBetweenChangePoints(Basal(0.6), Schedules.LocalDateTime(1490394600000, Gmt5), 7);
  }

  // ------------------------------------------------------------ device status

  function Tomato(createdAt: Instant): NightscoutApi.DeviceStatus {
    NightscoutApi.DeviceStatus("Tomato", createdAt, Some(NightscoutApi.Uploader(20, "BRIDGE")))
  }

  function Phone(createdAt: Instant, battery: int): NightscoutApi.DeviceStatus {
    NightscoutApi.DeviceStatus("samsung SM-N986B", createdAt, Some(NightscoutApi.Uploader(battery, "PHONE")))
  }

  /** Ten statuses of two uploaders, newest first, as the server returns them. */
  const Statuses: seq<NightscoutApi.DeviceStatus> :=
    [Tomato(1635633391901), Phone(1635633391844, 69),
     Tomato(1635633092252), Phone(1635633092198, 70),
     Tomato(1635632792128), Phone(1635632792043, 70),
     Tomato(1635632492955), Phone(1635632492902, 70),
     Tomato(1635632191839), Phone(1635632191784, 70)]

  /** The latest statuses are keyed by the two device names. */
  lemma DevicesExample()
    ensures NightscoutApi.Devices(Statuses) == {"Tomato", "samsung SM-N986B"}
  {
    assert Statuses[0].device == "Tomato" && Statuses[1].device == "samsung SM-N986B";
  }

  /** The bridge's latest status is the one of 2021-10-30 22:36:31.901 UTC, at battery 20. */
  lemma LatestBridgeExample()
    ensures var g := Sorting.WithKey(Statuses, NightscoutApi.Device, "Tomato");
            g != [] && NightscoutApi.Latest(g) == Statuses[0]
  {
    assert Statuses[0].device == "Tomato";
    NightscoutApi.LatestOfDevice(Statuses, "Tomato");
  }

  /** The phone's latest status is the one of 2021-10-30 22:36:31.844 UTC, at battery 69. */
  lemma LatestPhoneExample()
    ensures var g := Sorting.WithKey(Statuses, NightscoutApi.Device, "samsung SM-N986B");
            g != [] && NightscoutApi.Latest(g) == Statuses[1]
  {
    assert Statuses[1].device == "samsung SM-N986B";
    NightscoutApi.LatestOfDevice(Statuses, "samsung SM-N986B");
  }

  /** The first stored reading: 169 mg/dL falling by 5.257. */
  const FirstReading: Records.JsonDict :=
    map["device" := Records.Str("xDrip-LimiTTer"), "date" := Records.Int(1596654066533),
        "dateString" := Records.Str("2020-08-05T19:01:06.533Z"),
        "sgv" := Records.Int(169), "delta" := Records.Real(-5.257),
        "direction" := Records.Str("FortyFiveDown")]

  /** 169 mg/dL is 9.4 mmol/L, and a delta of -5.257 mg/dL is -0.3 mmol/L. */
  lemma MmolExample()
    ensures Readings.MgdlToMmol(Some(169.0)) == Some(9.4)
    ensures Readings.MgdlToMmol(Some(-5.257)) == Some(-0.3)
  {
    assert (169.0 / 18.0 * 10.0).Floor == 93;
    assert (-5.257 / 18.0 * 10.0).Floor == -3;
  }

  /** Decoding the first reading adds `sgv_mmol` 9.4 and `delta_mmol` -0.3. */
  lemma SgvExample(parseDate: string -> Records.Value)
    ensures var r := Readings.SgvTransforms(FirstReading, parseDate);
            && r.Ok?
            && r.value["sgv_mmol"] == Records.Real(9.4)
            && r.value["delta_mmol"] == Records.Real(-0.3)
            && Records.MissingKeys(Readings.SgvClass, r.value) == {}
  {
    MmolExample();
    var r := Readings.SgvTransforms(FirstReading, parseDate);
    Readings.SgvRequiredFields(r.value);
  }
}
