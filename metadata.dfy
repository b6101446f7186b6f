/** `MetaData`: a JSON value together with a validity flag. The JSON
    library is an oracle: its parser either yields a value or the special
    "discarded" value (parsing with exceptions switched off). */
module Metadata {
  import opened Bytes

  /** A JSON value as far as the streamer uses one. `Null` is what a
      default-constructed `nlohmann::json` holds. */
  datatype Json =
    | Null
    | Discarded
    | Number(n: int)
    | Text(s: string)
    | Object(members: map<string, Json>)

  class MetaData {
    var metaData: Json
    var isValid: bool

    /** A fresh object is invalid and holds a null value. */
    constructor ()
      ensures !isValid && metaData == Null
    {
      metaData := Null;
      isValid := false;
    }

    /** `create(data)`: store the value and mark the object valid. When the
        assignment throws, the value is left as it was (the library assigns
        by copy-and-swap) and the object is marked invalid. */
    method Create(data: Json, assignThrows: bool)
      modifies this
      ensures assignThrows ==> !isValid && metaData == old(metaData)
      ensures !assignThrows ==> isValid && metaData == data
    {
      if assignThrows {
        isValid := false;
      } else {
        metaData := data;
        isValid := true;
      }
    }

    /** `parse(rawData)`: store what the parser yields and mark the object
        valid exactly when that is not the discarded value. An exception
        raised before the assignment (building the string) leaves the value
        as it was and marks the object invalid. */
    method Parse(rawData: seq<byte>, parser: seq<byte> -> Json, throws: bool)
      modifies this
      ensures throws ==> !isValid && metaData == old(metaData)
      ensures !throws ==> metaData == parser(rawData)
      ensures !throws ==> (isValid <==> !parser(rawData).Discarded?)
    {
      if throws {
        isValid := false;
      } else {
        metaData := parser(rawData);
        if metaData.Discarded? {
          isValid := false;
        } else {
          isValid := true;
        }
      }
    }

    /** `isValid()`: the flag left by the latest `create` or `parse`. */
    function IsValid(): (b: bool)
      reads this
    {
      isValid
    }

    /** `get()`: the value left by the latest `create` or `parse`. */
    function Get(): (j: Json)
      reads this
    {
      metaData
    }
  }

  /** A freshly made object filled by `create(d)` is valid and `get()`
      returns `d`: the sequence `VideoSender::sendFrame` performs. */
  method CreateThenGet(d: Json) returns (valid: bool, value: Json)
    ensures valid && value == d
  {
    var m := new MetaData();
    m.Create(d, false);
    valid, value := m.IsValid(), m.Get();
  }

  /** A fresh object that is never filled stays invalid. */
  method FreshThenIsValid() returns (valid: bool, value: Json)
    ensures !valid && value == Null
  {
    var m := new MetaData();
    valid, value := m.IsValid(), m.Get();
  }

  /** After `parse`, `isValid()` tells whether the parser succeeded and
      `get()` returns its result, the discarded value included. */
  method ParseThenGet(rawData: seq<byte>, parser: seq<byte> -> Json) returns (valid: bool, value: Json)
    ensures valid <==> !parser(rawData).Discarded?
    ensures value == parser(rawData)
  {
    var m := new MetaData();
    m.Parse(rawData, parser, false);
    valid, value := m.IsValid(), m.Get();
  }

  /** The latest operation decides: `create` after a failed `parse` makes
      the object valid again, with the created value. */
  method CreateAfterParse(rawData: seq<byte>, parser: seq<byte> -> Json, parseThrows: bool, d: Json)
    returns (valid: bool, value: Json)
    ensures valid && value == d
  {
    var m := new MetaData();
    m.Parse(rawData, parser, parseThrows);
    m.Create(d, false);
    valid, value := m.IsValid(), m.Get();
  }

  /** ... and a throwing `parse` after a successful `create` makes it invalid,
      while `get()` still returns the created value. */
  method ThrowingParseAfterCreate(rawData: seq<byte>, parser: seq<byte> -> Json, d: Json)
    returns (valid: bool, value: Json)
    ensures !valid && value == d
  {
    var m := new MetaData();
    m.Create(d, false);
    m.Parse(rawData, parser, true);
    valid, value := m.IsValid(), m.Get();
  }
}
