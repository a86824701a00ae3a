/**
 * The values the scripts read back with `json.load`, the exceptions they can
 * raise, and the two library services they call but that are not part of this
 * model: pandas' `to_datetime` and json files on disk.
 */
module PyData {
  import opened Wrappers
  import opened PyStr

  /** A JSON value as `json.load` returns it (numbers are kept as integers; no
      script looks at a number's value). Objects are maps: key order only
      matters to `json.dump`, which is not modelled. */
  datatype Json =
    | JNull
    | JBool(b: bool)
    | JNumber(n: int)
    | JStr(s: string)
    | JArr(items: seq<Json>)
    | JObj(fields: map<string, Json>)

  /** The exceptions the scripts let escape (or catch), by Python class. */
  datatype PyError =
    | TypeError
    | KeyError(key: string)
    | AttributeError
    | SampleLargerThanPopulation
    | FileNotFound(path: string)
    | JsonDecodeError(path: string)
    | TransferError(url: string)
    | DecompressionError(path: string)
    | XmlParseError(path: string)
    | NotAnArray
    | DateParseError

  /** Python's `needle in container` for a string needle: a substring test on a
      string, a membership test on a list, a key test on a dict, and a TypeError
      (None here) on anything else. */
  function In(needle: string, container: Json): (r: Option<bool>)
    ensures r.None? <==> !(container.JStr? || container.JArr? || container.JObj?)
    ensures container.JStr? ==> r == Some(Occurs(needle, container.s))
    ensures container.JObj? ==> r == Some(needle in container.fields)
  {
    match container
    case JStr(s) => Some(Occurs(needle, s))
    case JArr(items) => Some(JStr(needle) in items)
    case JObj(m) => Some(needle in m)
    case _ => None
  }

  /** `d.get(key, default)` on a dict. */
  function Get(d: map<string, Json>, key: string, default: Json): (r: Json)
    ensures key in d ==> r == d[key]
    ensures key !in d ==> r == default
  {
    if key in d then d[key] else default
  }

  /** `pd.to_datetime(x).year` for a JSON value `x`: it raises, it is NaT's
      year (a float NaN, equal to no year), or it is a calendar year. */
  datatype DateYear = Raises | NaT | InYear(year: int)

  /** pandas' `to_datetime`, which the model does not interpret:
      `parses(s)` holds when `pd.to_datetime(s)` returns for the string `s`
      instead of raising; `yearOf(x)` is what `pd.to_datetime(x).year` gives. */
  datatype DateLib = DateLib(parses: string -> bool, yearOf: Json -> DateYear)

  /** What `json.load` makes of a file: a value, or a JSONDecodeError. */
  datatype JsonFile = Unparsable | Parsed(value: Json)

  /** `json.load(open(path))` over a file system given as a map. */
  function LoadJson(files: map<string, JsonFile>, path: string): (r: Result<Json, PyError>)
    ensures r.Success? <==> path in files && files[path].Parsed?
    ensures r.Success? ==> r.value == files[path].value
  {
    if path !in files then Failure(FileNotFound(path))
    else match files[path]
      case Unparsable => Failure(JsonDecodeError(path))
      case Parsed(v) => Success(v)
  }
}
