/**
 The dictionary form in which buses and tickets are persisted: a map from
 field name to a JSON scalar. Only the two scalar kinds the records use
 are modelled.
 */
module Records {

  datatype Value = Str(s: string) | Int(i: int)

  type Dict = map<string, Value>

  /** `d[key]` exists and is a string. */
  predicate HasStr(d: Dict, key: string) {
    key in d && d[key].Str?
  }

  /** `d[key]` exists and is an integer. */
  predicate HasInt(d: Dict, key: string) {
    key in d && d[key].Int?
  }
}
