/** Decoded JSON values, as the snapshot reader walks them. */
module Json {
  import opened Bytes

  datatype Value =
    | Null
    | Bool(b: bool)
    | Number(numeral: string)
    | Text(bytes: Bytes)
    | Array(items: seq<Value>)
    | Object(members: map<string, Value>)
}
