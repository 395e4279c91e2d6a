/** JsonValue (include/json_parser.h): a tagged union of the six JSON types
    with total type tests and checked accessors. The tag is a function of the
    variant, so the two always agree. */
module JsonValues {
  import opened JsonTokens

  /** The type tag of a value (JsonType). */
  datatype JsonType = Null | String | Number | Boolean | Object | Array

  /** A parsed value. A number keeps the lexeme that the tokenizer accepted;
      an object maps each key to the value of its first occurrence. */
  datatype JsonValue =
    | JNull
    | JString(str: string)
    | JNumber(lexeme: string)
    | JBool(b: bool)
    | JObject(obj: map<string, JsonValue>)
    | JArray(arr: seq<JsonValue>)
  {
    /** The `type` field that each constructor sets. */
    function Type(): (t: JsonType)
      ensures t == JsonType.Null <==> JNull?
      ensures t == JsonType.String <==> JString?
      ensures t == JsonType.Number <==> JNumber?
      ensures t == JsonType.Boolean <==> JBool?
      ensures t == JsonType.Object <==> JObject?
      ensures t == JsonType.Array <==> JArray?
    {
      match this
      case JNull => JsonType.Null
      case JString(_) => JsonType.String
      case JNumber(_) => JsonType.Number
      case JBool(_) => JsonType.Boolean
      case JObject(_) => JsonType.Object
      case JArray(_) => JsonType.Array
    }

    predicate IsNull() { Type() == JsonType.Null }
    predicate IsString() { Type() == JsonType.String }
    predicate IsNumber() { Type() == JsonType.Number }
    predicate IsBool() { Type() == JsonType.Boolean }
    predicate IsObject() { Type() == JsonType.Object }
    predicate IsArray() { Type() == JsonType.Array }

    /** operator[](key): the value mapped to key in an object. */
    function Get(key: string): (r: Result<JsonValue>)
      ensures r.Ok? <==> IsObject() && key in obj
      ensures r.Ok? ==> r.value == obj[key]
      ensures !IsObject() ==> r == Err(NotAnObject)
      ensures IsObject() && key !in obj ==> r == Err(KeyNotFound(key))
    {
      if !IsObject() then Err(NotAnObject)
      else if key !in obj then Err(KeyNotFound(key))
      else Ok(obj[key])
    }

    /** operator[](index): the element at index in an array. */
    function At(index: nat): (r: Result<JsonValue>)
      ensures r.Ok? <==> IsArray() && index < |arr|
      ensures r.Ok? ==> r.value == arr[index]
      ensures !IsArray() ==> r == Err(NotAnArray)
      ensures IsArray() && index >= |arr| ==> r == Err(IndexOutOfBounds)
    {
      if !IsArray() then Err(NotAnArray)
      else if index >= |arr| then Err(IndexOutOfBounds)
      else Ok(arr[index])
    }

    function AsString(): (r: Result<string>)
      ensures r.Ok? <==> IsString()
      ensures r.Ok? ==> this == JString(r.value)
      ensures r.Err? ==> r.error == NotAString
    {
      if !IsString() then Err(NotAString) else Ok(str)
    }

    /** asDouble, with the number kept as its lexeme. */
    function AsNumber(): (r: Result<string>)
      ensures r.Ok? <==> IsNumber()
      ensures r.Ok? ==> this == JNumber(r.value)
      ensures r.Err? ==> r.error == NotANumber
    {
      if !IsNumber() then Err(NotANumber) else Ok(lexeme)
    }

    function AsBool(): (r: Result<bool>)
      ensures r.Ok? <==> IsBool()
      ensures r.Ok? ==> this == JBool(r.value)
      ensures r.Err? ==> r.error == NotABoolean
    {
      if !IsBool() then Err(NotABoolean) else Ok(b)
    }

    function AsObject(): (r: Result<map<string, JsonValue>>)
      ensures r.Ok? <==> IsObject()
      ensures r.Ok? ==> this == JObject(r.value)
      ensures r.Err? ==> r.error == NotAnObject
    {
      if !IsObject() then Err(NotAnObject) else Ok(obj)
    }

    function AsArray(): (r: Result<seq<JsonValue>>)
      ensures r.Ok? <==> IsArray()
      ensures r.Ok? ==> this == JArray(r.value)
      ensures r.Err? ==> r.error == NotAnArray
    {
      if !IsArray() then Err(NotAnArray) else Ok(arr)
    }
  }

  /** Exactly one of the type tests holds for any value. */
  lemma {:induction false} ExactlyOneType(v: JsonValue)
    ensures v.IsNull() || v.IsString() || v.IsNumber() || v.IsBool() || v.IsObject() || v.IsArray()
    ensures v.IsNull() ==> !v.IsString() && !v.IsNumber() && !v.IsBool() && !v.IsObject() && !v.IsArray()
    ensures v.IsString() ==> !v.IsNumber() && !v.IsBool() && !v.IsObject() && !v.IsArray()
    ensures v.IsNumber() ==> !v.IsBool() && !v.IsObject() && !v.IsArray()
    ensures v.IsBool() ==> !v.IsObject() && !v.IsArray()
    ensures v.IsObject() ==> !v.IsArray()
  {
  }
}
