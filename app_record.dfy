/** Serial/SerialData.cs: the earlier form of the record. It has no character
    set of its own: received bytes are always decoded as UTF-8, and the hex
    text is built inline with the same layout as `HexStr.Format`. */
module AppRecord {
  import opened Base
  import opened NetText
  import HexStr

  class SerialData {
    const isSentData: bool
    /** `Bytes`: the payload of a received record; null (None) on a sent record. */
    const data: Option<seq<byte>>
    /** `Encoding.UTF8.GetString`, the one decoder a received record ever
        uses; UTF-8 decoding is foreign code, so the record is handed it once,
        when it is made. A sent record never decodes and has none. */
    const utf8: Option<Decoder>
    /** The cached text of a received record, or the description of a sent one. */
    var str: Option<string>
    var hexStr: Option<string>
    var hex: bool
    var raised: seq<string>

    ghost predicate Valid()
      reads this
    {
      && (isSentData ==> data.None? && utf8.None? && str.Some? && hexStr.None? && !hex)
      && (!isSentData ==>
            && data.Some? && utf8.Some?
            && (str.Some? ==> str.value == utf8.value(data.value))
            && (hexStr.Some? ==> hexStr.value == HexStr.Formatted(data.value)))
    }

    ghost function Shown(): string
      reads this
      requires Valid()
    {
      if isSentData then str.value
      else if hex then HexStr.Formatted(data.value)
      else utf8.value(data.value)
    }

    /** `new SerialData(data)`: a received record in text mode. */
    constructor (data: seq<byte>, utf8: Decoder)
      ensures Valid() && !isSentData
      ensures this.data == Some(data) && this.utf8 == Some(utf8)
      ensures str.None? && hexStr.None? && !hex && raised == []
      ensures Shown() == utf8(data)
    {
      isSentData := false;
      this.data := Some(data);
      this.utf8 := Some(utf8);
      str := None;
      hexStr := None;
      hex := false;
      raised := [];
    }

    /** `CreateSentData(description)`: a sent record showing `description`. */
    constructor CreateSentData(description: string)
      ensures Valid() && isSentData
      ensures data.None? && !hex && raised == []
      ensures Shown() == description
    {
      isSentData := true;
      data := None;
      utf8 := None;
      str := Some(description);
      hexStr := None;
      hex := false;
      raised := [];
    }

    /** `Bytes`: the payload the record was made with, null for a sent record. */
    function Bytes(): (b: Option<seq<byte>>)
      reads this
      requires Valid()
      ensures b.None? <==> isSentData
      ensures b == data
    {
      data
    }

    /** The setter of `Hex`, ignored on a sent record. */
    method SetHex(value: bool)
      requires Valid()
      modifies this
      ensures Valid()
      ensures str == old(str) && hexStr == old(hexStr)
      ensures isSentData ==> hex == old(hex) && raised == old(raised) && Shown() == old(Shown())
      ensures !isSentData ==> hex == value && raised == old(raised) + ["Hex", "Data"]
    {
      if !isSentData {
        hex := value;
        raised := raised + ["Hex"];
        raised := raised + ["Data"];
      }
    }

    /** `AsStr`: decodes as UTF-8 on first use and keeps the text. */
    method AsStr() returns (s: string)
      requires Valid() && !isSentData
      modifies this`str
      ensures Valid()
      ensures s == utf8.value(data.value) && str == Some(s)
      ensures old(str).Some? ==> str == old(str)
    {
      if str.None? {
        str := Some(utf8.value(data.value));
      }
      s := str.value;
    }

    /** `AsHex`: on first use builds, byte by byte, exactly the text
        `HexStr.Format` gives, and keeps it. */
    method AsHex() returns (s: string)
      requires Valid() && !isSentData
      modifies this`hexStr
      ensures Valid()
      ensures s == HexStr.Formatted(data.value) && hexStr == Some(s)
      ensures old(hexStr).Some? ==> hexStr == old(hexStr)
    {
      if hexStr.None? {
        var bytes := data.value;
        var sb := "";
        var i := 0;
        while i < |bytes|
          invariant 0 <= i <= |bytes|
          invariant sb == HexStr.Formatted(bytes[..i])
        {
          if i % 16 == 0 {
            if i != 0 {
              sb := sb + NewLine;
            }
          } else {
            sb := sb + " ";
          }
          sb := sb + X2(bytes[i]);
          HexStr.FormattedStep(bytes, i);
          i := i + 1;
        }
        assert bytes[..|bytes|] == bytes;
        hexStr := Some(sb);
      }
      s := hexStr.value;
    }

    /** The getter of `Data`: the description of a sent record whatever its
        mode; for a received record the hex form in hex mode and the UTF-8
        text otherwise, filling only the cache it reads. */
    method Data() returns (s: string)
      requires Valid()
      modifies this`str, this`hexStr
      ensures Valid() && s == old(Shown()) && Shown() == old(Shown())
      ensures isSentData ==> s == old(str).value && str == old(str) && hexStr == old(hexStr)
      ensures !isSentData && hex ==> s == HexStr.Formatted(data.value) && hexStr == Some(s) && str == old(str)
      ensures !isSentData && !hex ==> s == utf8.value(data.value) && str == Some(s) && hexStr == old(hexStr)
    {
      if isSentData {
        s := str.value;
      } else if hex {
        s := AsHex();
      } else {
        s := AsStr();
      }
    }
  }
}
