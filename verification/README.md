# py-nightscout core, modelled in Dafny

py-nightscout is a Python client for the Nightscout diabetes data server.
This project models the deterministic core of the library:

- **Daily schedules.** A `Schedule` is a list of change points (an offset
  from local midnight and a value) kept in one time zone. Building one sorts
  the entries by offset. `value_at_date` gives the value in effect at a
  local time. `between` turns the recurring day into absolute change points
  over an interval, splitting the interval at local midnights.
- **Schedule entries from JSON.** An entry's offset comes from
  `timeAsSeconds` or from `"HH:MM"` text, and its value from `float(value)`.
  `Schedule.new_from_json_array` decodes a list of entries and builds the
  schedule.
- **Profile definitions.** A `ProfileDefinitionSet` sorts its definitions by
  start date. It answers which definition is in effect at an instant.
  `get_default_profile` looks up the profile named as default.
- **Record construction.** `BaseModel.__init__` copies only declared fields
  from its keyword arguments. `new_from_json_dict` then refuses a record that
  leaves a declared field without a value. The SGV (sensor glucose value)
  decoder adds mmol/L values next to the mg/dL reading and its delta.
- **The API client.** The constructor strips `/` from the server URL and
  chooses the authentication header. `get_latest_devices_status` keeps the
  newest status of every device.

Modules, one file each:

- `Wrappers`: `Option`, `Result`, the Python exceptions as error values, and a
  fail-fast map over a list.
- `Sorting`: one stable insertion sort. `SortBy` is the functional
  definition. `SortInPlace` is the array algorithm, proved equal to it. Also
  "last element whose key is at most x".
- `FixedZones`: instants in milliseconds, fixed-offset zones, local midnight.
- `Schedules` and `ScheduleRanges`: the schedule, `value_at_date`, `between`,
  and what is proved about `between`.
- `Text`: `str.split`, `int()`, `float()` on decimal text, and `str(n)`.
- `Records`: `BaseModel`.
- `ScheduleEntries`: `ScheduleEntry.json_transforms` and
  `Schedule.new_from_json_array`.
- `Readings`: `SGV`.
- `Profiles`: `Profile`, `ProfileDefinition`, `ProfileDefinitionSet`.
- `NightscoutApi`: `Api`.
- `Scenarios`: the repository's test cases, stated on the model.

How Python constructs are represented:

- **Time.** An instant is an integer number of milliseconds since the epoch.
  A zone is a fixed UTC offset in milliseconds. The local time of day of `t`
  is `(t + zone) mod 86 400 000`, and local midnight is `t` minus that.
- **Sorting.** `list.sort(key=...)` is a stable sort, so it is modelled as
  `Sorting.SortBy`. `sort(key=created_at, reverse=True)` is also stable, and
  it orders the same way as an ascending stable sort on the negated key
  (`NightscoutApi.NewestFirst`).
- **Indexing.** `[x for x in xs if key(x) <= v][-1]` is `Sorting.LastAtMost`.
  The `IndexError` it raises on an empty list is the `Err(IndexError)` result.
- **Reflection.** `__annotations__`, class attributes, `dir`, `getattr` and
  `setattr` become explicit sets and maps of field names
  (`Records.ModelClass`, `Records.Instance`).
- **Numbers.** `float` values are exact reals, and Python integers are
  unbounded integers.
- **Parameters.** The SHA-1 digest and the ISO-8601 date parser are
  parameters (`sha1Hex`, `parseDate`). The device statuses that
  `get_latest_devices_status` would fetch over HTTP are a parameter too.

Where the code and its documented behaviour differ, the model follows the
code:

- **Zero-width range.** `between(t, t)` is not empty: it returns the entry
  in effect at `t`, when there is one (`ScheduleRanges.BetweenZeroWidth`).
- **Change point exactly at the end date.** Such a change point is included
  when the interval ends mid-day. It is excluded when the end date is a
  local midnight. `between` never splits the interval at its own end: a
  piece that ends exactly one day after its start's midnight goes straight
  to that day's window, which covers only that day, so the change point at
  offset 0 of the following day is not in it.

## Model

| member | source | states |
|---|---|---|
| Sorting.SortBy | py_nightscout/models.py:238-240 | the sorted list has as many elements as the input |
| Sorting.SortBySorted | py_nightscout/models.py:238-240 | the result ascends by the key |
| Sorting.SortByPermutes | py_nightscout/models.py:238-240 | the result is a permutation of the input (equal multisets) |
| Sorting.SortByStable | py_nightscout/models.py:238-240 | for every key, the elements with that key keep their input order |
| Sorting.SortByMembers | py_nightscout/models.py:402-404 | an element occurs in the sorted list exactly when it occurs in the input |
| Sorting.SortByIndexOf | py_nightscout/models.py:402-404 | every input element has a position in the sorted list |
| Sorting.SortByOfSorted | py_nightscout/models.py:238-240 | sorting a list already in key order leaves it unchanged |
| Sorting.SortByHead | py_nightscout/api.py:177-178 | the head of the sorted list is an input of least key, and no earlier input has that key |
| Sorting.InsertAt | py_nightscout/models.py:239 | one step of the in-place sort: the prefix becomes the functional insertion of the next element, and the rest of the array is unchanged |
| Sorting.SortInPlace | py_nightscout/models.py:239 | `list.sort(key=...)` on an array: the new contents are `SortBy` of the old contents |
| Sorting.LastAtMost | py_nightscout/models.py:257 | a found index lies in range and its key is at most the bound |
| Sorting.LastAtMostSpec | py_nightscout/models.py:257 | nothing is found exactly when every key exceeds the bound; a found index is the last one whose key is at most the bound |
| Sorting.LastAtMostAt | py_nightscout/models.py:257 | an index whose key is at most the bound, with every later key above it, is the one found |
| Sorting.WithKeyLast | py_nightscout/models.py:416 | the last element with a given key is the one after which no element has that key |
| FixedZones.TimeOfDay | py_nightscout/models.py:254-256 | the local time of day lies within one day |
| FixedZones.Midnight | py_nightscout/models.py:283 | local midnight is at most `t`, less than a day before it, and has time of day 0 |
| FixedZones.MidnightsApart | py_nightscout/models.py:286-287 | two different local midnights are at least a day apart |
| FixedZones.MidnightUnique | py_nightscout/models.py:283-284 | an instant within a day after a midnight has that midnight as its own, and its time of day is its distance from it |
| FixedZones.NextMidnight | py_nightscout/models.py:287 | a day after a local midnight is again a local midnight |
| Schedules.NewSchedule | py_nightscout/models.py:238-241 | the caller's array is sorted in place by offset; the schedule holds the sorted entries and the zone, and ascends by offset |
| Schedules.ValueAtDate | py_nightscout/models.py:254-257 | the only failure is `IndexError` |
| Schedules.ValueAtDateSpec | py_nightscout/models.py:254-257 | it succeeds exactly when some entry starts no later than the local time of day; it then returns the value of such an entry after which every entry starts later |
| Schedules.ValueAtDateBetweenChangePoints | py_nightscout/models.py:254-257 | in a sorted schedule, a time of day between entry `i` and entry `i + 1` yields entry `i`'s value |
| Schedules.WindowEnd | py_nightscout/models.py:293-300 | `end_index` is in range, and the entry at it starts after the end offset |
| Schedules.WindowEndSpec | py_nightscout/models.py:298-300 | every entry before `end_index` starts no later than the end offset |
| Schedules.WindowEndAt | py_nightscout/models.py:298-300 | `end_index` is the first entry that starts after the end offset |
| Schedules.WindowStart | py_nightscout/models.py:292-297 | `start_index` lies before `end_index` when that is positive |
| Schedules.WindowStartSpec | py_nightscout/models.py:296-297 | every entry after `start_index` starts after the start offset; when the entry at `start_index` does too, it is the default 0 and every entry does |
| Schedules.WindowStartIsLastAtMost | py_nightscout/models.py:296-297 | `start_index` is the entry `value_at_date` selects among the first `end_index` entries, or 0 |
| Schedules.Anchor | py_nightscout/models.py:302-305 | the slice has `end_index - start_index` change points |
| Schedules.AnchorAt | py_nightscout/models.py:302-305 | change point `i` is entry `start_index + i` anchored at the reference midnight |
| Schedules.DayWindow | py_nightscout/models.py:292-305 | the change points of one local day, from `start_index` up to `end_index`, each anchored at the reference midnight (its elements: `ScheduleRanges.DayWindowAt`, `ScheduleRanges.DayWindowComplete`) |
| Schedules.Between | py_nightscout/models.py:259-305 | `between`: empty for a reversed interval, split at the next local midnight when the end lies beyond it, else the day's window (its properties: the `ScheduleRanges` lemmas below) |
| Schedules.ScanWindow | py_nightscout/models.py:292-300 | the loop with its `break` computes exactly `end_index` and `start_index` |
| ScheduleRanges.DayWindowAt | py_nightscout/models.py:302-305 | element `i` of a day's window is the entry at `start_index + i`, at the reference date plus its offset |
| ScheduleRanges.BetweenWithinDay | py_nightscout/models.py:283-286 | a span that ends by the next local midnight is that day's window |
| ScheduleRanges.BetweenSplit | py_nightscout/models.py:286-290 | a span that ends after the next midnight `b` is `between(s, b) + between(b, e)`; `b` lies strictly inside the span, so the recursion ends |
| ScheduleRanges.BetweenSplitsAtMidnight | py_nightscout/models.py:283-305 | splitting at any local midnight strictly inside the span gives the same result |
| ScheduleRanges.BetweenReversed | py_nightscout/models.py:277-278 | a reversed interval gives the empty list |
| ScheduleRanges.BetweenSound | py_nightscout/models.py:259-305 | every change point lies between the start's midnight and the end, all but the first lie after the start, and each is an entry of the schedule: its local time of day is the offset and it carries the value |
| ScheduleRanges.BetweenChronological | py_nightscout/models.py:259-305 | the change points come out in chronological order |
| ScheduleRanges.BeforeWindowEnd | py_nightscout/models.py:298-300 | in a sorted schedule, an entry that starts by the end offset lies before `end_index` |
| ScheduleRanges.WindowStartInEffect | py_nightscout/models.py:292-300 | in a sorted schedule, `start_index` is the entry `value_at_date` selects at the start offset |
| ScheduleRanges.ValueAtOwnZone | py_nightscout/models.py:254-257 | in the schedule's own zone, `value_at_date` measures the time of day from the local midnight |
| ScheduleRanges.BetweenStartsWithValueAtDate | py_nightscout/models.py:292-305 | the first change point is the entry `value_at_date` finds at the start, taking effect no later than the start; when it finds none, every change point lies after the start |
| ScheduleRanges.BetweenZeroWidth | py_nightscout/models.py:277-305 | a zero-width query returns exactly the entry in effect at that instant, or nothing when there is none |
| ScheduleRanges.DayWindowComplete | py_nightscout/models.py:292-305 | without repeated offsets, every entry with an offset between the window's offsets is in that day's window |
| ScheduleRanges.BetweenComplete | py_nightscout/models.py:259-305 | without repeated offsets, every change point of the schedule in `[start, end)` is returned with its entry's value |
| Wrappers.MapAllSpec | py_nightscout/models.py:314 | the list comprehension succeeds exactly when every element decodes; it then holds the decoded elements in order; a failure is the error of the first element that fails |
| Text.DecimalString | py_nightscout/models.py:203-205 | `str(n)` is a nonempty run of digits with no leading zero |
| Text.DigitsValueOfDecimal | py_nightscout/models.py:203-205 | reading back the digits of `str(n)` gives `n` |
| Text.Split | py_nightscout/models.py:207 | `split` returns at least one piece |
| Text.JoinSplit | py_nightscout/models.py:207 | joining the pieces with the separator gives back the text |
| Text.SplitPieces | py_nightscout/models.py:207 | no piece contains the separator |
| Text.SplitJoin | py_nightscout/models.py:207 | separator-free pieces come back out of their join unchanged |
| Text.ParseIntOfDecimal | py_nightscout/models.py:208 | `int(str(n)) == n` |
| Text.ParseFloatOfInt | py_nightscout/models.py:205 | `float` of integer text is the integer's value |
| Records.AssignedOnlyDeclared | py_nightscout/models.py:16-24 | the constructor sets only declared fields it was given, each to its argument |
| Records.Assigned | py_nightscout/models.py:16-24 | the constructor sets a key exactly when it is an argument and a declared field whose class attribute is absent or `None` |
| Records.MissingKeys | py_nightscout/models.py:46 | the missing fields are declared fields without a class attribute |
| Records.AttributeAfterConstruction | py_nightscout/models.py:16-24 | a class attribute other than `None` is read back unchanged; a declared field given as an argument, with no default or a `None` default, reads as that argument; a field not given reads as its class attribute, if any |
| Records.MissingKeysSpec | py_nightscout/models.py:46 | a field is missing exactly when it is declared, has no class attribute and was not supplied |
| Records.CompleteIff | py_nightscout/models.py:46-51 | no field is missing exactly when every declared field has a class attribute or a value |
| Records.Instance.constructor | py_nightscout/models.py:16-24 | `__init__`: the loop over the arguments sets exactly the assignable declared fields, and `_json` is `None` |
| Records.NewFromJsonDict | py_nightscout/models.py:31-51 | a transform error propagates; otherwise the record is refused with a `KeyError` naming the missing fields exactly when some are missing, and else is a new instance holding the assigned fields with `_json` the original data |
| ScheduleEntries.ToFloat | py_nightscout/models.py:205 | `float()` raises `TypeError` exactly for a value that is neither a number nor text; a bool, int or float gives its numeric value; text succeeds exactly when it parses as a decimal, with the parsed value, and fails otherwise with `ValueError` |
| ScheduleEntries.ClockOffset | py_nightscout/models.py:207-208 | a non-text `time` raises `AttributeError`; text succeeds exactly when it splits at `:` into two pieces that `int` accepts, and fails otherwise with `ValueError` |
| ScheduleEntries.SecondsToMillis | py_nightscout/models.py:209 | `timedelta(seconds=x)` in milliseconds is the whole number of milliseconds at or just below `x * 1000` |
| ScheduleEntries.EntryOffset | py_nightscout/models.py:203-208 | with `timeAsSeconds` present it succeeds exactly when `float` accepts it, its offset is `float(timeAsSeconds)` seconds in milliseconds, and its failure is `float`'s error; without, the offset is the clock offset of `time` |
| ScheduleEntries.EntryValue | py_nightscout/models.py:210 | the value is a `KeyError` exactly when the key is absent, and is `float` of the stored value otherwise |
| ScheduleEntries.EntryTransforms | py_nightscout/models.py:202-210 | a successful transform adds exactly the keys `offset` and `value` |
| ScheduleEntries.EntryFromJson | py_nightscout/models.py:202-210 | decoding an entry succeeds exactly when its transform does, and fails with the transform's error |
| ScheduleEntries.EntryTransformsSpec | py_nightscout/models.py:202-210 | the transform fails exactly when the offset or the value cannot be read; otherwise it sets `offset` and `value` and leaves every other key unchanged |
| ScheduleEntries.EntryFromJsonIsRecord | py_nightscout/models.py:198-210 | decoding an entry is record construction on the transformed data: it fails with the transform's error, and otherwise no field is missing and the instance holds exactly the offset and the value |
| ScheduleEntries.TimeAsSecondsWins | py_nightscout/models.py:203-205 | with `timeAsSeconds` set, `time` is never consulted |
| ScheduleEntries.OffsetFromSecondsText | py_nightscout/models.py:203-205 | `timeAsSeconds` given as the text of `n` gives an offset of `n` seconds |
| ScheduleEntries.OffsetFromClockText | py_nightscout/models.py:206-208 | without `timeAsSeconds`, the text `HH:MM` gives `HH` hours plus `MM` minutes |
| ScheduleEntries.TwoDigits | py_nightscout/models.py:207-208 | zero-padded two-digit text of `n < 100` reads back as `n` |
| ScheduleEntries.ClockTextWithinDay | py_nightscout/models.py:206-208 | a clock time of a real day gives an offset within the day |
| ScheduleEntries.ClockOffsetInverse | py_nightscout/models.py:207-208 | a clock text that decodes is two colon-free pieces around one colon, each accepted by `int`, and its offset is computed from them |
| ScheduleEntries.ScheduleFromJsonArray | py_nightscout/models.py:307-315 | the first entry that fails to decode decides the error; otherwise the result is the decoded entries sorted by offset, a valid schedule |
| Readings.RoundTenths | py_nightscout/models.py:125 | `round(x, 1)` is a multiple of a tenth within half a tenth of `x` |
| Readings.RoundTenthsExact | py_nightscout/models.py:125 | a multiple of a tenth rounds to itself |
| Readings.RoundTenthsNearest | py_nightscout/models.py:125 | no multiple of a tenth lies closer to `x` than `round(x, 1)` |
| Readings.RoundTenthsTiesToEven | py_nightscout/models.py:125 | a value halfway between two tenths rounds to the neighbour with an even last digit |
| Readings.MgdlToMmol | py_nightscout/models.py:123-125 | `None` maps to `None`, and a reading to a multiple of a tenth within 0.05 of `mgdl / 18` |
| Readings.ToNumber | py_nightscout/models.py:118 | the division accepts exactly a bool, an int or a float, with its numeric value; anything else raises `TypeError` |
| Readings.AddMmol | py_nightscout/models.py:116-121 | the only failure is `TypeError`, and a success adds at most the target key |
| Readings.SgvTransforms | py_nightscout/models.py:111-121 | the only failure is `TypeError` (its result: `Readings.SgvTransformsSpec`) |
| Readings.SgvTransformsSpec | py_nightscout/models.py:111-122 | `sgv_mmol` and `delta_mmol` hold the converted readings when `sgv` and `delta` hold numbers, and keep what the input had when those are absent or `None`; a truthy `dateString` is text and `date` is its parse, while a falsy one leaves `date` as it was; no key but `date`, `sgv_mmol` and `delta_mmol` changes |
| Readings.SgvRequiredFields | py_nightscout/models.py:103-109 | an SGV record is complete exactly when the data has `sgv`, `sgv_mmol`, `date`, `direction` and `device` |
| Profiles.GetDefaultProfile | py_nightscout/models.py:374-376 | the lookup succeeds exactly when the default name is stored, yields that profile, and otherwise raises a `KeyError` for the name |
| Profiles.NewProfileDefinitionSet | py_nightscout/models.py:402-404 | the caller's array is sorted in place by start date; the set holds it and ascends by start date |
| Profiles.ActiveAt | py_nightscout/models.py:416 | the only failure is `IndexError` |
| Profiles.ActiveAtSpec | py_nightscout/models.py:416 | the lookup succeeds exactly when some definition has started by the date; it yields one after which every definition starts later |
| Profiles.ActiveAtLatest | py_nightscout/models.py:402-416 | on a constructed set, no definition that started by the date started after the one returned |
| Profiles.ActiveAtOfInputSucceeds | py_nightscout/models.py:402-416 | for inputs in any order, the lookup succeeds exactly when some input has started by the date |
| Profiles.ActiveAtOfInputGreatest | py_nightscout/models.py:402-416 | the definition returned is an input with the greatest start date not after the date |
| Profiles.ActiveAtOfInputLastOfTies | py_nightscout/models.py:402-416 | among inputs sharing that start date it is the last one in input order |
| NightscoutApi.StripLeading | py_nightscout/api.py:54 | after `lstrip` the text does not start with the character |
| NightscoutApi.StripTrailing | py_nightscout/api.py:54 | `rstrip` leaves a prefix of the text that does not end with the character |
| NightscoutApi.Strip | py_nightscout/api.py:54 | the stripped URL neither starts nor ends with `/` |
| NightscoutApi.StripSpec | py_nightscout/api.py:54 | the input is a run of `/`, the stored URL, and another run of `/`; the stored URL neither starts nor ends with `/` |
| NightscoutApi.StripUnique | py_nightscout/api.py:54 | whatever lies between two runs of `/` and neither starts nor ends with `/` is what `strip` returns |
| NightscoutApi.StripIdempotent | py_nightscout/api.py:54 | stripping twice is stripping once |
| NightscoutApi.ApiSecretHeader | py_nightscout/api.py:67-76 | there is no header exactly when neither credential is given |
| NightscoutApi.ApiSecretHeaderSpec | py_nightscout/api.py:67-77 | the header is present exactly when a credential is given; an access token always decides it as `token=<token>`; with only a secret, it is the secret itself when it starts with `token=` and its digest otherwise |
| NightscoutApi.RequestHeaders | py_nightscout/api.py:62-77 | `Content-Type` and `Accept` are `application/json`, no other key but `api-secret` appears, and `api-secret` appears exactly when a credential is given, with the chosen value |
| NightscoutApi.Api.constructor | py_nightscout/api.py:44-57 | the stored URL is the stripped input and the stored headers are the request headers |
| NightscoutApi.Latest | py_nightscout/api.py:177-178 | the head of a device's statuses sorted newest first (its properties: `NightscoutApi.LatestSpec`) |
| NightscoutApi.LatestSpec | py_nightscout/api.py:177-178 | the head of the sorted group is a member of the group, no older than any member, and the first of the newest in group order |
| NightscoutApi.LatestOfDevice | py_nightscout/api.py:172-178 | the status kept for a device is one of the inputs, of that device, no older than any status of the device, and the first of the newest in input order |
| NightscoutApi.GroupByDevice | py_nightscout/api.py:172-174 | the groups are keyed by exactly the device names that occur, and each holds that device's statuses in input order |
| NightscoutApi.GroupStep | py_nightscout/api.py:173-174 | appending one status to its device's list keeps every list equal to its device's group |
| NightscoutApi.LatestDevicesStatus | py_nightscout/api.py:171-179 | the output has exactly one key per device that occurs, and holds the head of that device's group sorted newest first |
| Scenarios.BetweenExample | tests/schedule_test.py:11-39 | the UTC−5 schedule queried from 2017-07-07 20:00 UTC to 2017-07-08 06:00 UTC yields 12:00 → 0.8, 22:00 → 0.9 and the next midnight → 1, in that order |
| Scenarios.EntryExample | py_nightscout/models.py:202-210 | `{"time": "17:00", "value": "0.6", "timeAsSeconds": "61200"}` decodes to 17 hours and 0.6 |
| Scenarios.ClockEntryExample | py_nightscout/models.py:206-210 | the same entry without `timeAsSeconds` decodes the same from the clock text |
| Scenarios.MmolExample | tests/test_api.py:45-48 | 169 mg/dL converts to 9.4 mmol/L and a delta of -5.257 to -0.3 |
| Scenarios.SgvExample | tests/test_api.py:44-49 | decoding the first stored reading adds `sgv_mmol` 9.4 and `delta_mmol` -0.3, and leaves no field missing |
| Scenarios.ActiveProfileExample | tests/test_api.py:82-87 | among the three stored definitions in server order, 2017-03-05 resolves to the one of 2017-03-02 |
| Scenarios.BasalExample | tests/test_api.py:89-96 | in that definition's default profile, 17:30 local time gives basal 0.6 |
| Scenarios.DevicesExample | tests/test_api.py:141-143 | the ten statuses come from exactly two devices |
| Scenarios.LatestBridgeExample | tests/test_api.py:144-150 | the bridge's latest status is the one of 22:36:31.901 UTC, at battery 20 |
| Scenarios.LatestPhoneExample | tests/test_api.py:151-157 | the phone's latest status is the one of 22:36:31.844 UTC, at battery 69 |

## Left out

- HTTP: the aiohttp session, `__get`, the fetchers, timeouts and `raise_for_status`. These are I/O. `get_latest_devices_status` takes the fetched statuses as a parameter.
- NightscoutApi.Api.constructor: does not keep the `session` and `timeout` arguments, which only reach the HTTP layer.
- SHA-1 is an opaque parameter `sha1Hex` (the digest of the secret's UTF-8 bytes), because it is a `hashlib` call.
- ISO-8601 parsing (`dateutil.parser`) is a parameter `parseDate`, and the definitions and statuses carry instants that are already parsed.
- Time zones are fixed UTC offsets. pytz rules and daylight-saving changes inside an interval are not modelled, and neither is `astimezone` across differing offsets.
- Floating point: values are exact reals. `round(x, 1)` is modelled as rounding the exact quotient to a tenth, ties to even; the binary representation of `mgdl / 18` can round a tie differently in Python.
- ScheduleEntries.SecondsToMillis: rounds a fractional `timeAsSeconds` down to whole milliseconds, where `timedelta` keeps microseconds.
- Text.ParseFloat: accepts only an optional sign, digits and one decimal point. Exponents, surrounding whitespace, underscores, `inf` and `nan` are not modelled.
- Text.ParseInt: accepts only an optional sign and digits. Surrounding whitespace and underscores are not modelled.
- The `json_transforms` methods are functions from the dictionary to the rewritten dictionary. `new_from_json_dict` hands them its own copy, so the in-place update cannot be observed.
- `Profile.json_transforms` and `ProfileDefinition.json_transforms` (zone lookup, decoding of the nested schedules and profiles, date parsing): these decoding steps consist of library calls. Profiles and definitions are built directly as values.
- `ProfileDefinitionSet.new_from_json_array`: it decodes each element with `ProfileDefinition.new_from_json_dict` and passes the list to the constructor, and that decoding is left out. The constructor itself is `Profiles.NewProfileDefinitionSet`.
- The other record classes (`ServerStatus`, `Treatment`, `XDripJs`, `UploaderBattery`, `PumpBattery`, `PumpStatus`, `PumpDevice`, `DeviceStatus`) and their `json_transforms`: these parse dates with `dateutil` or `datetime.fromtimestamp` (`Treatment` picks between the two by whether `timestamp` is an int) and decode their nested records, and none of it feeds the modelled operations. A device status is modelled by the three fields the grouping reads.
- `dir(instance)` is modelled for declared fields only. Methods and `_json` also appear in it, but no class declares them, so the completeness check is unaffected.
- Dictionary iteration order does not matter: each loop over keys (the constructor's, and the second loop of `get_latest_devices_status`) gives the same result in any order, so the model picks keys in any order.
- ScheduleRanges.BetweenComplete: requires distinct offsets. With a repeated offset, `start_index` skips the earlier of the two entries.
- ScheduleRanges.BetweenSound and ScheduleRanges.BetweenChronological: require every offset to lie within one day, as decoded `HH:MM` offsets do.
- Readings.SgvTransforms: `parseDate` is total, whereas `dateutil.parser.parse` raises `ParserError` on text it cannot read.
- Text.ParseInt and Text.ParseFloat: accept only ASCII digits, whereas `int()` and `float()` also accept other Unicode decimal digits.
- ScheduleEntries.SecondsToMillis: does not model the `OverflowError` that `timedelta` raises for a `timeAsSeconds` beyond its range.
- NightscoutApi.LatestDevicesStatus: the output is a map, so the insertion order of the returned `dict` is not modelled.
- Instants are whole milliseconds, so datetimes with sub-millisecond parts are not represented.
