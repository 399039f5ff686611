/**
 * Decoding of schedule change points (`ScheduleEntry.json_transforms` and
 * `Schedule.new_from_json_array` in py_nightscout/models.py).
 *
 * An entry's offset is `timeAsSeconds` when that key holds a value, and
 * otherwise the `"HH:MM"` text under `time`; its value is `float(value)`.
 * The transform rewrites the decoder's own copy of the dictionary, which
 * nothing else can observe, so it is modelled as a function returning the
 * rewritten dictionary.
 */
module ScheduleEntries {
  import opened Wrappers
  import opened FixedZones
  import opened Records
  import opened Text
  import Sorting
  import Schedules

  /** `ScheduleEntry`: fields `offset` and `value`, neither with a default. */
  const EntryClass: ModelClass := ModelClass({"offset", "value"}, map[])

  /** Python's `float(v)` on a decoded value. */
  function ToFloat(v: Value): (r: Result<real>)
    ensures r.Err? ==> r.error in {TypeError, ValueError}
    ensures r.Err? && r.error == TypeError <==> !(v.Bool? || v.Int? || v.Real? || v.Str?)
    ensures v.Bool? ==> r == Ok(if v.b then 1.0 else 0.0)
    ensures v.Int? ==> r == Ok(v.i as real)
    ensures v.Real? ==> r == Ok(v.r)
    ensures v.Str? ==> (r.Ok? <==> ParseFloat(v.s).Some?)
    ensures v.Str? && r.Ok? ==> r.value == ParseFloat(v.s).value
  {
    match v
    case Bool(b) => Ok(if b then 1.0 else 0.0)
    case Int(i) => Ok(i as real)
    case Real(x) => Ok(x)
    case Str(s) => (match ParseFloat(s) case Some(x) => Ok(x) case None => Err(ValueError))
    case _ => Err(TypeError)
  }

  /**
   * `timedelta(seconds=seconds)` in whole milliseconds (rounded down).
   */
  function SecondsToMillis(seconds: real): (r: int)
    ensures r as real <= seconds * 1000.0 < r as real + 1.0
  {
    (seconds * 1000.0).Floor
  }

  /**
   * `hours, minutes = cast(str, time).split(":")` and
   * `int(hours) * 60 * 60 + int(minutes) * 60`, in milliseconds: anything
   * but text has no `split` (`AttributeError`); text with other than one
   * colon, or pieces `int` rejects, raise `ValueError`.
   */
  function ClockOffset(time: Value): (r: Result<int>)
    ensures !time.Str? ==> r == Err(AttributeError)
    ensures time.Str? ==>
              (r.Ok? <==>
                 (|Split(time.s, ':')| == 2
                  && ParseInt(Split(time.s, ':')[0]).Some?
                  && ParseInt(Split(time.s, ':')[1]).Some?))
    ensures time.Str? && r.Err? ==> r.error == ValueError
  {
    match time
    case Str(t) =>
      var parts := Split(t, ':');
      if |parts| != 2 then Err(ValueError)
      else
        (match (ParseInt(parts[0]), ParseInt(parts[1]))
         case (Some(hours), Some(minutes)) => Ok(hours * Hour + minutes * Minute)
         case _ => Err(ValueError))
    case _ => Err(AttributeError)
  }

  /** The offset the transform stores, in milliseconds. */
  function EntryOffset(json: JsonDict): (r: Result<int>)
    ensures Get(json, "timeAsSeconds") != Null ==> (r.Ok? <==> ToFloat(Get(json, "timeAsSeconds")).Ok?)
    ensures Get(json, "timeAsSeconds") != Null && ToFloat(Get(json, "timeAsSeconds")).Ok?
            ==> r == Ok(SecondsToMillis(ToFloat(Get(json, "timeAsSeconds")).value))
    ensures Get(json, "timeAsSeconds") != Null && r.Err?
            ==> r.error == ToFloat(Get(json, "timeAsSeconds")).error
    ensures Get(json, "timeAsSeconds") == Null ==> r == ClockOffset(Get(json, "time"))
  {
    var seconds := Get(json, "timeAsSeconds");
    if seconds != Null then
      (match ToFloat(seconds) case Ok(x) => Ok(SecondsToMillis(x)) case Err(e) => Err(e))
    else ClockOffset(Get(json, "time"))
  }

  /** `float(json_data["value"])`: `KeyError` when the key is absent. */
  function EntryValue(json: JsonDict): (r: Result<real>)
    ensures "value" !in json <==> r == Err(KeyError({"value"}))
    ensures "value" in json ==> r == ToFloat(json["value"])
  {
    if "value" !in json then Err(KeyError({"value"})) else ToFloat(json["value"])
  }

  /** `ScheduleEntry.json_transforms`: the offset is computed first, then the value. */
  function EntryTransforms(json: JsonDict): (r: Result<JsonDict>)
    ensures r.Ok? ==> r.value.Keys == json.Keys + {"offset", "value"}
  {
    match EntryOffset(json)
    case Err(e) => Err(e)
    case Ok(offset) =>
      match EntryValue(json)
      case Err(e) => Err(e)
      case Ok(value) => Ok(json["offset" := Duration(offset)]["value" := Real(value)])
  }

  /** `ScheduleEntry.new_from_json_dict(json)`. */
  function EntryFromJson(json: JsonDict): (r: Result<Schedules.ScheduleEntry>)
    ensures r.Ok? <==> EntryTransforms(json).Ok?
    ensures r.Err? ==> r.error == EntryTransforms(json).error
  {
    match EntryOffset(json)
    case Err(e) => Err(e)
    case Ok(offset) =>
      match EntryValue(json)
      case Err(e) => Err(e)
      case Ok(value) => Ok(Schedules.ScheduleEntry(offset, value))
  }

  /**
   * The transform adds `offset` and `value` and leaves every other key as it
   * was; it fails exactly when the offset or the value cannot be read.
   */
  lemma EntryTransformsSpec(json: JsonDict)
    ensures EntryTransforms(json).Ok? <==> EntryOffset(json).Ok? && EntryValue(json).Ok?
    ensures EntryTransforms(json).Ok? ==>
              var r := EntryTransforms(json).value;
              r.Keys == json.Keys + {"offset", "value"}
              && r["offset"] == Duration(EntryOffset(json).value)
              && r["value"] == Real(EntryValue(json).value)
              && forall key :: key in json && key != "offset" && key != "value" ==> r[key] == json[key]
  {
  }

  /**
   * Decoding an entry is the generic record construction applied to the
   * transformed dictionary: it fails with the transform's error, and
   * otherwise no declared field is missing and the instance holds exactly
   * the entry's offset and value.
   */
  lemma EntryFromJsonIsRecord(json: JsonDict)
    ensures EntryFromJson(json).Err? <==> EntryTransforms(json).Err?
    ensures EntryFromJson(json).Err? ==> EntryFromJson(json).error == EntryTransforms(json).error
    ensures EntryFromJson(json).Ok? ==>
              var t := EntryTransforms(json).value;
              var e := EntryFromJson(json).value;
              MissingKeys(EntryClass, t) == {}
              && Assigned(EntryClass, t) == map["offset" := Duration(e.offset), "value" := Real(e.value)]
  {
    if EntryFromJson(json).Ok? {
      var t := EntryTransforms(json).value;
      var e := EntryFromJson(json).value;
      assert "offset" in t && "value" in t;
      var expected := map["offset" := Duration(e.offset), "value" := Real(e.value)];
      assert Assigned(EntryClass, t).Keys == expected.Keys;
    }
  }

  /** With `timeAsSeconds` set, `time` is never consulted. */
  lemma TimeAsSecondsWins(json: JsonDict, time: Value)
    requires Get(json, "timeAsSeconds") != Null
    ensures EntryOffset(json["time" := time]) == EntryOffset(json)
  {
    assert Get(json["time" := time], "timeAsSeconds") == Get(json, "timeAsSeconds");
  }

  /** `timeAsSeconds` given as the decimal text of `n` seconds is an offset of `n` seconds. */
  lemma OffsetFromSecondsText(json: JsonDict, n: nat)
    requires Get(json, "timeAsSeconds") == Str(DecimalString(n))
    ensures EntryOffset(json) == Ok(n * Second)
  {
    var text := DecimalString(n);
    ParseIntOfDecimal(n);
    ParseFloatOfInt(text);
    assert ToFloat(Str(text)) == Ok(n as real);
    assert SecondsToMillis(n as real) == n * Second;
  }

  /** `time` text `"HH:MM"` of two digit strings is `HH` hours and `MM` minutes. */
  lemma OffsetFromClockText(json: JsonDict, hours: string, minutes: string)
    requires Get(json, "timeAsSeconds") == Null
    requires hours != [] && AllDigits(hours) && minutes != [] && AllDigits(minutes)
    requires Get(json, "time") == Str(hours + ":" + minutes)
    ensures EntryOffset(json) == Ok(DigitsValue(hours) * Hour + DigitsValue(minutes) * Minute)
  {
    assert Split(hours + ":" + minutes, ':') == [hours, minutes] by {
      assert ':' !in hours && ':' !in minutes by {
        assert forall i :: 0 <= i < |hours| ==> IsDigit(hours[i]);
        assert forall i :: 0 <= i < |minutes| ==> IsDigit(minutes[i]);
      }
      SplitJoin([hours, minutes], ':');
      assert Join([hours, minutes], ':') == hours + ":" + minutes;
    }
    assert ParseInt(hours) == Some(DigitsValue(hours)) by {
      assert Magnitude(hours) == hours by { assert IsDigit(hours[0]); }
    }
    assert ParseInt(minutes) == Some(DigitsValue(minutes)) by {
      assert Magnitude(minutes) == minutes by { assert IsDigit(minutes[0]); }
    }
  }

  /** Two-digit zero-padded text of `n < 100`. */
  function TwoDigits(n: nat): (r: string)
    requires n < 100
    ensures |r| == 2 && AllDigits(r) && DigitsValue(r) == n
  {
    var r := [Digit(n / 10), Digit(n % 10)];
    assert r[..1] == [Digit(n / 10)] && r[..1][..0] == [];
    assert DigitsValue(r[..1]) == n / 10;
    assert DigitsValue(r) == DigitsValue(r[..1]) * 10 + n % 10;
    r
  }

  /** A clock time `HH:MM` of a real day decodes to an offset within the day. */
  lemma ClockTextWithinDay(json: JsonDict, h: nat, m: nat)
    requires h < 24 && m < 60
    requires Get(json, "timeAsSeconds") == Null
    requires Get(json, "time") == Str(TwoDigits(h) + ":" + TwoDigits(m))
    ensures EntryOffset(json) == Ok(h * Hour + m * Minute)
    ensures 0 <= h * Hour + m * Minute < Day
  {
    OffsetFromClockText(json, TwoDigits(h), TwoDigits(m));
    ClockWithinDay(h, m);
  }

  lemma ClockWithinDay(h: nat, m: nat)
    requires h < 24 && m < 60
    ensures 0 <= h * Hour + m * Minute < Day
  {
    assert h * Hour <= 23 * Hour && m * Minute <= 59 * Minute;
  }

  /**
   * A clock text that decodes is exactly two pieces around one colon, each
   * accepted by `int`.
   */
  lemma ClockOffsetInverse(t: string)
    requires ClockOffset(Str(t)).Ok?
    ensures exists hours, minutes ::
              ':' !in hours && ':' !in minutes && t == hours + ":" + minutes
              && ParseInt(hours).Some? && ParseInt(minutes).Some?
              && ClockOffset(Str(t)).value == ParseInt(hours).value * Hour + ParseInt(minutes).value * Minute
  {
    var parts := Split(t, ':');
    JoinSplit(t, ':');
    SplitPieces(t, ':');
    assert t == parts[0] + ":" + parts[1] by {
      assert Join(parts, ':') == parts[0] + [':'] + Join(parts[1..], ':');
    }
    assert ':' !in parts[0] && ':' !in parts[1];
  }

  /**
   * `Schedule.new_from_json_array(data, timezone)`: decodes every entry
   * (`[ScheduleEntry.new_from_json_dict(d) for d in data]`, where the first
   * failure propagates), then builds the schedule, which sorts them by offset.
   */
  method ScheduleFromJsonArray(data: seq<JsonDict>, timezone: Zone) returns (r: Result<Schedules.Schedule>)
    ensures MapAll(EntryFromJson, data).Err? ==> r == Err(MapAll(EntryFromJson, data).error)
    ensures MapAll(EntryFromJson, data).Ok? ==>
              r == Ok(Schedules.Schedule(Sorting.SortBy(MapAll(EntryFromJson, data).value, Schedules.Offset), timezone))
              && Schedules.Valid(r.value)
  {
    match MapAll(EntryFromJson, data)
    case Err(e) =>
      r := Err(e);
    case Ok(entries) =>
      var a := new Schedules.ScheduleEntry[|entries|](i requires 0 <= i < |entries| => entries[i]);
      assert a[..] == entries;
      var s := Schedules.NewSchedule(a, timezone);
      r := Ok(s);
  }
}
