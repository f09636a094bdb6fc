/** The JSON libraries the Go code calls (gjson, sjson, json-tool, encoding/json) are outside
    this model; they are injected as one record of functions, and gjson's path lookup is
    written out over the decoded document. */
module Json {
  import opened Common
  import opened Decimal

  /** A decoded JSON document. */
  datatype Value =
    | Str(s: string)
    | Num(text: string)
    | Bool(b: bool)
    | Null
    | Arr(items: seq<Value>)
    | Obj(fields: map<string, Value>)

  /** The foreign JSON operations. Their behaviour is not modelled; every property proved here
      holds whatever they do, unless a lemma states an assumption about them explicitly. */
  datatype JsonLib = JsonLib(
    decode: string -> Value,                             // lenient parse of a document
    valid: string -> bool,                               // jt.IsValid / jt.IsValidStr
    setString: (string, string, string) -> Option<string>, // sjson.Set(doc, path, value); None on error
    flatten: string -> Option<seq<(string, Value)>>,     // jt.Flatten: leaf path -> leaf, in Go's map range order
    encode: Value -> string                              // json.Marshal / raw JSON text
  )
  {
    /** gjson.Get(doc, path).String(), the path given as its dot-separated segments. */
    function Get(doc: string, path: seq<string>): string {
      TextOf(Lookup(decode(doc), path))
    }

    /** Result.String(): strings as they are, numbers as the text `decode` gives them (gjson
        re-formats a number whose raw text is not a plain digit run, so `1e3` reads as `1000`;
        that is left to `decode`), booleans as words, null and a missing path as "", arrays and
        objects as their JSON text. */
    function TextOf(v: Option<Value>): string {
      match v
      case None => ""
      case Some(Str(s)) => s
      case Some(Num(t)) => t
      case Some(Bool(b)) => if b then "true" else "false"
      case Some(Null) => ""
      case Some(x) => encode(x)
    }
  }

  /** gjson path lookup: object keys by name, array elements by a decimal index. */
  function Lookup(v: Value, path: seq<string>): Option<Value>
    decreases |path|
  {
    if path == [] then Some(v)
    else match v
      case Obj(f) => if path[0] in f then Lookup(f[path[0]], path[1..]) else None
      case Arr(items) =>
        var seg := path[0];
        if seg != [] && AllDigits(seg) && ValueOf(seg) < |items| then Lookup(items[ValueOf(seg)], path[1..])
        else None
      case _ => None
  }

  /** The path `Collections.%d.Name` that DumpCollection formats reaches element i's Name. */
  lemma LookupIndexed(items: seq<Value>, i: nat, rest: seq<string>)
    requires i < |items|
    ensures Lookup(Arr(items), [DecimalOf(i)] + rest) == Lookup(items[i], rest)
  {
    assert ([DecimalOf(i)] + rest)[1..] == rest;
  }
}
