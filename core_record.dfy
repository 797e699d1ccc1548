/** Serial.Core/SerialData.cs: one logged unit of the exchange. A sent record
    shows the description it was made with; a received record shows its
    payload as decoded text or as hex, computing each form on first use and
    keeping it. Changing the character set drops the cached text only. */
module CoreRecord {
  import opened Base
  import HexStr

  class SerialData {
    /** `IsSentData`, fixed when the record is made. */
    const isSentData: bool
    /** `Bytes`: the payload of a received record; null (None) on a sent record. */
    const data: Option<seq<byte>>
    /** The cached text of a received record, or the description of a sent one. */
    var str: Option<string>
    /** The cached hex text. */
    var hexStr: Option<string>
    var hex: bool
    /** `Encoding`: null (None) on a sent record. */
    var encoding: Option<Decoder>
    /** The names of the properties whose change was announced, in order. */
    var raised: seq<string>

    /** A sent record never has a payload, a character set, a hex cache or hex
        mode; a received record's caches, when filled, hold exactly what its
        payload gives. */
    ghost predicate Valid()
      reads this
    {
      && (isSentData ==> data.None? && encoding.None? && str.Some? && hexStr.None? && !hex)
      && (!isSentData ==>
            && data.Some? && encoding.Some?
            && (str.Some? ==> str.value == encoding.value(data.value))
            && (hexStr.Some? ==> hexStr.value == HexStr.Formatted(data.value)))
    }

    /** What `Data` shows. */
    ghost function Shown(): string
      reads this
      requires Valid()
    {
      if isSentData then str.value
      else if hex then HexStr.Formatted(data.value)
      else encoding.value(data.value)
    }

    /** `new SerialData(data, encoding)`: a received record in text mode. */
    constructor (data: seq<byte>, encoding: Decoder)
      ensures Valid() && !isSentData
      ensures this.data == Some(data) && this.encoding == Some(encoding)
      ensures str.None? && hexStr.None? && !hex && raised == []
      ensures Shown() == encoding(data)
    {
      isSentData := false;
      this.data := Some(data);
      this.encoding := Some(encoding);
      str := None;
      hexStr := None;
      hex := false;
      raised := [];
    }

    /** `CreateSentData(description)`: a sent record showing `description`. */
    constructor CreateSentData(description: string)
      ensures Valid() && isSentData
      ensures data.None? && encoding.None? && !hex && raised == []
      ensures Shown() == description
    {
      isSentData := true;
      data := None;
      encoding := None;
      str := Some(description);
      hexStr := None;
      hex := false;
      raised := [];
    }

    /** `Bytes`: the payload the record was made with, null for a sent record. */
    function Bytes(): (b: Option<seq<byte>>)
      reads this
      requires Valid()
      ensures b.None? <==> isSentData
      ensures b == data
    {
      data
    }

    /** The setter of `Hex`: a received record changes mode and announces
        `Hex` and then `Data`; a sent record ignores the call. The payload and
        both caches stay as they are. */
    method SetHex(value: bool)
      requires Valid()
      modifies this
      ensures Valid()
      ensures str == old(str) && hexStr == old(hexStr) && encoding == old(encoding)
      ensures isSentData ==> hex == old(hex) && raised == old(raised) && Shown() == old(Shown())
      ensures !isSentData ==> hex == value && raised == old(raised) + ["Hex", "Data"]
    {
      if !isSentData {
        hex := value;
        raised := raised + ["Hex"];
        raised := raised + ["Data"];
      }
    }

    /** `AsStr`: decodes the payload on first use and keeps the text. */
    method AsStr() returns (s: string)
      requires Valid() && !isSentData
      modifies this`str
      ensures Valid()
      ensures s == encoding.value(data.value) && str == Some(s)
      ensures old(str).Some? ==> str == old(str)
    {
      if str.None? {
        str := Some(encoding.value(data.value));
      }
      s := str.value;
    }

    /** `AsHex`: formats the payload on first use and keeps the text. */
    method AsHex() returns (s: string)
      requires Valid() && !isSentData
      modifies this`hexStr
      ensures Valid()
      ensures s == HexStr.Formatted(data.value) && hexStr == Some(s)
      ensures old(hexStr).Some? ==> hexStr == old(hexStr)
    {
      if hexStr.None? {
        var h := HexStr.Format(data.value);
        hexStr := Some(h);
      }
      s := hexStr.value;
    }

    /** The getter of `Data`: the description of a sent record whatever its
        mode or character set; for a received record the hex form in hex mode
        and the decoded text otherwise, filling only the cache it reads. */
    method Data() returns (s: string)
      requires Valid()
      modifies this`str, this`hexStr
      ensures Valid() && s == old(Shown()) && Shown() == old(Shown())
      ensures isSentData ==> s == old(str).value && str == old(str) && hexStr == old(hexStr)
      ensures !isSentData && hex ==> s == HexStr.Formatted(data.value) && hexStr == Some(s) && str == old(str)
      ensures !isSentData && !hex ==> s == encoding.value(data.value) && str == Some(s) && hexStr == old(hexStr)
    {
      if isSentData {
        s := str.value;
      } else if hex {
        s := AsHex();
      } else {
        s := AsStr();
      }
    }

    /** `ChangeEncoding`: a received record takes the new character set and
        drops its cached text, keeping its cached hex, and announces `Data`
        only when it is showing text; a sent record ignores the call, so its
        description survives. */
    method ChangeEncoding(e: Decoder)
      requires Valid()
      modifies this
      ensures Valid() && hex == old(hex) && hexStr == old(hexStr)
      ensures isSentData ==> str == old(str) && encoding == old(encoding) && raised == old(raised)
      ensures isSentData ==> Shown() == old(Shown())
      ensures !isSentData ==> encoding == Some(e) && str.None?
      ensures !isSentData ==> raised == old(raised) + (if hex then [] else ["Data"])
      ensures !isSentData ==> Shown() == if hex then old(Shown()) else e(data.value)
    {
      if isSentData {
        return;
      }
      encoding := Some(e);
      str := None;
      if !hex {
        raised := raised + ["Data"];
      }
    }
  }
}
