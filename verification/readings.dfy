/**
 * Sensor glucose values (`SGV` in py_nightscout/models.py): the decoder adds
 * mmol/L companions of the mg/dL reading and of its delta.
 *
 * Arithmetic is on exact reals: `round(x, 1)` rounds to the nearest tenth,
 * halves to even, as Python does for a value that is exactly representable.
 */
module Readings {
  import opened Wrappers
  import opened Records

  /** `SGV`'s annotated fields; `delta` and `delta_mmol` default to `None`. */
  const SgvClass: ModelClass :=
    ModelClass({"sgv", "sgv_mmol", "delta", "delta_mmol", "date", "direction", "device"},
               map["delta" := Null, "delta_mmol" := Null])

  /** `round(x, 1)`: the nearest multiple of a tenth, a tie going to the even one. */
  function RoundTenths(x: real): (r: real)
    ensures (r * 10.0).Floor as real == r * 10.0
    ensures -0.05 <= r - x <= 0.05
  {
    var y := x * 10.0;
    var f := y.Floor;
    var frac := y - f as real;
    var n := if frac < 0.5 then f else if frac > 0.5 then f + 1 else if f % 2 == 0 then f else f + 1;
    n as real / 10.0
  }

  /** Rounding leaves a multiple of a tenth as it is. */
  lemma RoundTenthsExact(k: int)
    ensures RoundTenths(k as real / 10.0) == k as real / 10.0
  {
    assert (k as real / 10.0) * 10.0 == k as real;
  }

  /** No multiple of a tenth lies closer to `x` than `round(x, 1)`. */
  lemma RoundTenthsNearest(x: real, k: int)
    ensures var r := RoundTenths(x);
            var d := k as real / 10.0;
            (if r >= x then r - x else x - r) <= (if d >= x then d - x else x - d)
  {
    var y := x * 10.0;
    var f := y.Floor;
    assert f as real <= y < f as real + 1.0;
    assert (k as real / 10.0) * 10.0 == k as real;
    assert k <= f || k >= f + 1;
  }

  /** A value halfway between two tenths goes to the one with an even digit. */
  lemma RoundTenthsTiesToEven(k: int)
    ensures var r := RoundTenths((2 * k + 1) as real / 20.0);
            (r * 10.0).Floor % 2 == 0
            && (r * 10.0).Floor in {k, k + 1}
  {
    var y := ((2 * k + 1) as real / 20.0) * 10.0;
    assert y == k as real + 0.5;
    assert y.Floor == k;
  }

  /** `__mgdl_to_mmol_l`: `None` stays `None`; a reading is divided by 18 and rounded. */
  function MgdlToMmol(mgdl: Option<real>): (r: Option<real>)
    ensures r.None? <==> mgdl.None?
    ensures r.Some? ==> (r.value * 10.0).Floor as real == r.value * 10.0
    ensures r.Some? ==> -0.05 <= r.value - mgdl.value / 18.0 <= 0.05
  {
    match mgdl
    case None => None
    case Some(x) => Some(RoundTenths(x / 18.0))
  }

  /** A value `x / 18` accepts: a number (`bool` counts as one in Python). */
  function ToNumber(v: Value): (r: Result<real>)
    ensures r.Ok? <==> v.Bool? || v.Int? || v.Real?
    ensures r.Err? ==> r.error == TypeError
    ensures v.Bool? ==> r == Ok(if v.b then 1.0 else 0.0)
    ensures v.Int? ==> r == Ok(v.i as real)
    ensures v.Real? ==> r == Ok(v.r)
  {
    match v
    case Bool(b) => Ok(if b then 1.0 else 0.0)
    case Int(i) => Ok(i as real)
    case Real(x) => Ok(x)
    case _ => Err(TypeError)
  }

  /**
   * `json_data[target] = __mgdl_to_mmol_l(json_data[source])` when the
   * source holds a value; the dictionary is unchanged otherwise.
   */
  function AddMmol(json: JsonDict, source: string, target: string): (r: Result<JsonDict>)
    ensures r.Err? ==> r.error == TypeError
    ensures r.Ok? ==> r.value.Keys <= json.Keys + {target}
  {
    var v := Get(json, source);
    if v == Null then Ok(json)
    else
      match ToNumber(v)
      case Err(e) => Err(e)
      case Ok(x) => Ok(json[target := Real(MgdlToMmol(Some(x)).value)])
  }

  /**
   * `SGV.json_transforms`: a truthy `dateString` is parsed into `date`
   * (`parseDate` stands for the date parser, which rejects non-text with
   * `TypeError`), then `sgv_mmol` and `delta_mmol` are added.
   */
  function SgvTransforms(json: JsonDict, parseDate: string -> Value): (r: Result<JsonDict>)
    ensures r.Err? ==> r.error == TypeError
  {
    var dateString := Get(json, "dateString");
    var dated :=
      if !Truthy(dateString) then Ok(json)
      else if dateString.Str? then Ok(json["date" := parseDate(dateString.s)])
      else Err(TypeError);
    match dated
    case Err(e) => Err(e)
    case Ok(j1) =>
      match AddMmol(j1, "sgv", "sgv_mmol")
      case Err(e) => Err(e)
      case Ok(j2) => AddMmol(j2, "delta", "delta_mmol")
  }

  /**
   * What the transform leaves behind: `sgv_mmol` (and likewise
   * `delta_mmol`) is the converted reading when `sgv` holds a number, and
   * is whatever the input had under that key when `sgv` is absent or
   * `None`; `date` is the parsed `dateString` when that is truthy, and is
   * left as it was otherwise; no other key changes.
   */
  lemma SgvTransformsSpec(json: JsonDict, parseDate: string -> Value)
    requires SgvTransforms(json, parseDate).Ok?
    ensures var r := SgvTransforms(json, parseDate).value;
            && (Get(json, "sgv") == Null ==> Get(r, "sgv_mmol") == Get(json, "sgv_mmol"))
            && (Get(json, "sgv") != Null ==>
                  ToNumber(Get(json, "sgv")).Ok?
                  && r["sgv_mmol"] == Real(MgdlToMmol(Some(ToNumber(Get(json, "sgv")).value)).value))
            && (Get(json, "delta") == Null ==> Get(r, "delta_mmol") == Get(json, "delta_mmol"))
            && (Get(json, "delta") != Null ==>
                  ToNumber(Get(json, "delta")).Ok?
                  && r["delta_mmol"] == Real(MgdlToMmol(Some(ToNumber(Get(json, "delta")).value)).value))
            && (Truthy(Get(json, "dateString")) ==>
                  Get(json, "dateString").Str? && r["date"] == parseDate(Get(json, "dateString").s))
            && (!Truthy(Get(json, "dateString")) ==> Get(r, "date") == Get(json, "date"))
            && r.Keys <= json.Keys + {"date", "sgv_mmol", "delta_mmol"}
            && forall key :: key in json && key !in {"date", "sgv_mmol", "delta_mmol"} ==> r[key] == json[key]
  {
  }

  /**
   * An `SGV` record is complete exactly when the transformed dictionary has
   * `sgv`, `sgv_mmol`, `date`, `direction` and `device`.
   */
  lemma SgvRequiredFields(json: JsonDict)
    ensures MissingKeys(SgvClass, json) == {"sgv", "sgv_mmol", "date", "direction", "device"} - json.Keys
  {
    MissingKeysSpec(SgvClass, json);
  }
}
