/** Serial/SerialConnection.cs: one serial-port session with its history of
    sent and received records. The hardware port is abstracted as an open
    flag, the driver's input buffer and the list of payloads written; every
    driver or file failure the source catches is an input flag here, and the
    error box it shows is an entry in `errors`. */
module Connection {
  import opened Base
  import History
  import CoreRecord

  /** `ulong` wraps around at 2^64 in C#'s default unchecked context. */
  const ULongModulus: int := 0x1_0000_0000_0000_0000

  /** The description logged for a file that was sent. */
  const FileTag: string := "[文件] "

  /** `EncodingInfo.GetEncoding()` in both directions. */
  datatype Charset = Charset(decode: Decoder, encode: Encoder)

  /** The operation whose failure was shown to the user. */
  datatype Operation = Receiving | SendingString | SendingFile | SwitchingIsOpen

  class SerialConnection {
    var dataList: seq<CoreRecord.SerialData>
    var selectedData: CoreRecord.SerialData?
    var receivedDataCount: nat
    var charset: Charset
    var strToSend: string
    var fileToSend: string
    var pauseReceiving: bool
    var showHexByDefault: bool
    /** `CloseCmd.CanExecute`: the command is made enabled and nothing here disables it. */
    var closeCmdCanExecute: bool

    // The hardware port, abstracted.
    var isOpen: bool
    var inBuffer: seq<byte>
    var written: seq<seq<byte>>
    var errors: seq<Operation>

    /** Between the two states only the port changed: every other field of
        the session is as it was. */
    twostate predicate OnlyPortChanged()
      reads this
    {
      && dataList == old(dataList) && selectedData == old(selectedData)
      && receivedDataCount == old(receivedDataCount) && charset == old(charset)
      && strToSend == old(strToSend) && fileToSend == old(fileToSend)
      && pauseReceiving == old(pauseReceiving) && showHexByDefault == old(showHexByDefault)
      && closeCmdCanExecute == old(closeCmdCanExecute)
      && written == old(written) && errors == old(errors)
    }

    ghost predicate Valid()
      reads this
    {
      |dataList| <= History.Capacity && receivedDataCount < ULongModulus
    }

    /** The state of a session just made on `charset`: empty history, no
        selection, zero count, empty inputs, closed port, close command
        enabled. */
    ghost predicate Initial(charset: Charset)
      reads this
    {
      && Valid() && this.charset == charset
      && dataList == [] && selectedData == null && receivedDataCount == 0
      && strToSend == "" && fileToSend == "" && !pauseReceiving && !showHexByDefault
      && closeCmdCanExecute && !isOpen && inBuffer == [] && written == [] && errors == []
    }

    constructor (charset: Charset)
      ensures Valid() && this.charset == charset
      ensures dataList == [] && selectedData == null && receivedDataCount == 0
      ensures strToSend == "" && fileToSend == "" && !pauseReceiving && !showHexByDefault
      ensures closeCmdCanExecute && !isOpen && inBuffer == [] && written == [] && errors == []
    {
      dataList := [];
      selectedData := null;
      receivedDataCount := 0;
      this.charset := charset;
      strToSend := "";
      fileToSend := "";
      pauseReceiving := false;
      showHexByDefault := false;
      closeCmdCanExecute := true;
      isOpen := false;
      inBuffer := [];
      written := [];
      errors := [];
    }

    /** `AddSerialDataToList`: appends the record, selects it and keeps the
        history within its bound by dropping the oldest record. */
    method AddSerialDataToList(record: CoreRecord.SerialData)
      requires Valid()
      modifies this`dataList, this`selectedData
      ensures Valid()
      ensures dataList == History.Appended(old(dataList), record)
      ensures selectedData == record
    {
      History.AppendedShape(dataList, record);
      dataList := dataList + [record];
      selectedData := record;
      if |dataList| > History.Capacity {
        dataList := dataList[1..];
      }
    }

    /** `SerialPort_DataReceived`, run as one step. The driver raises it only
        on an open port. While receiving is paused the input buffer is
        discarded and nothing else happens. Otherwise the handler waits for
        the settle delay, during which `arrived` more bytes may come in and
        another flow may close the port (`closedMeanwhile`); if the port is
        then closed it returns. Else it reads every buffered byte (the read
        may throw: `readFails`), logs one received record in the current
        character set and default mode, and counts it. */
    method DataReceived(arrived: seq<byte>, closedMeanwhile: bool, readFails: bool)
      requires Valid() && isOpen
      modifies this`inBuffer, this`isOpen, this`dataList, this`selectedData, this`receivedDataCount, this`errors
      ensures Valid()
      ensures old(pauseReceiving) ==>
        && inBuffer == [] && isOpen
        && dataList == old(dataList) && selectedData == old(selectedData)
        && receivedDataCount == old(receivedDataCount) && errors == old(errors)
      ensures !old(pauseReceiving) && closedMeanwhile ==>
        && !isOpen && inBuffer == []
        && dataList == old(dataList) && selectedData == old(selectedData)
        && receivedDataCount == old(receivedDataCount) && errors == old(errors)
      ensures !old(pauseReceiving) && !closedMeanwhile && readFails ==>
        && isOpen && inBuffer == old(inBuffer) + arrived
        && dataList == old(dataList) && selectedData == old(selectedData)
        && receivedDataCount == old(receivedDataCount) && errors == old(errors) + [Receiving]
      ensures !old(pauseReceiving) && !closedMeanwhile && !readFails ==>
        && isOpen && inBuffer == [] && errors == old(errors)
        && |dataList| > 0
        && var record := dataList[|dataList| - 1];
        && fresh(record) && record.Valid() && !record.isSentData
        && record.data == Some(old(inBuffer) + arrived)
        && record.encoding == Some(charset.decode)
        && record.hex == showHexByDefault
        && dataList == History.Appended(old(dataList), record)
        && selectedData == record
        && receivedDataCount == (old(receivedDataCount) + 1) % ULongModulus
    {
      if pauseReceiving {
        inBuffer := [];
        return;
      }
      // The settle delay.
      inBuffer := inBuffer + arrived;
      if closedMeanwhile {
        Close();
      }
      if !isOpen {
        return;
      }
      if readFails {
        errors := errors + [Receiving];
        return;
      }
      var data := inBuffer;
      inBuffer := [];
      var record := new CoreRecord.SerialData(data, charset.decode);
      record.SetHex(showHexByDefault);
      AddSerialDataToList(record);
      receivedDataCount := (receivedDataCount + 1) % ULongModulus;
    }

    /** `SendString`: nothing for an empty string; otherwise the text is
        encoded and written, and only a write that succeeds logs a sent
        record of the text. A write fails on a closed port or on a driver
        error (`writeFails`), and the failure is shown instead. */
    method SendString(writeFails: bool)
      requires Valid()
      modifies this`dataList, this`selectedData, this`written, this`errors
      ensures Valid()
      ensures old(strToSend) == "" ==>
        dataList == old(dataList) && selectedData == old(selectedData) && written == old(written) && errors == old(errors)
      ensures old(strToSend) != "" && (!old(isOpen) || writeFails) ==>
        && dataList == old(dataList) && selectedData == old(selectedData)
        && written == old(written) && errors == old(errors) + [SendingString]
      ensures old(strToSend) != "" && old(isOpen) && !writeFails ==>
        && written == old(written) + [charset.encode(strToSend)] && errors == old(errors)
        && |dataList| > 0
        && var record := dataList[|dataList| - 1];
        && fresh(record) && record.Valid() && record.isSentData && record.Shown() == strToSend
        && dataList == History.Appended(old(dataList), record)
        && selectedData == record
    {
      if strToSend == "" {
        return;
      }
      var data := charset.encode(strToSend);
      if !isOpen || writeFails {
        errors := errors + [SendingString];
        return;
      }
      written := written + [data];
      var record := new CoreRecord.SerialData.CreateSentData(strToSend);
      AddSerialDataToList(record);
    }

    /** `ClearData`: empties the history; the selection and the counter stay. */
    method ClearData()
      modifies this`dataList
      ensures dataList == []
    {
      dataList := [];
    }

    /** `SendFile`: nothing for an empty path; otherwise the file is read
        (`contents` is None when reading throws) and written as one payload,
        and only a write that succeeds logs a sent record naming the file. */
    method SendFile(contents: Option<seq<byte>>, writeFails: bool)
      requires Valid()
      modifies this`dataList, this`selectedData, this`written, this`errors
      ensures Valid()
      ensures old(fileToSend) == "" ==>
        dataList == old(dataList) && selectedData == old(selectedData) && written == old(written) && errors == old(errors)
      ensures old(fileToSend) != "" && (contents.None? || !old(isOpen) || writeFails) ==>
        && dataList == old(dataList) && selectedData == old(selectedData)
        && written == old(written) && errors == old(errors) + [SendingFile]
      ensures old(fileToSend) != "" && contents.Some? && old(isOpen) && !writeFails ==>
        && written == old(written) + [contents.value] && errors == old(errors)
        && |dataList| > 0
        && var record := dataList[|dataList| - 1];
        && fresh(record) && record.Valid() && record.isSentData
        && record.Shown() == FileTag + fileToSend
        && dataList == History.Appended(old(dataList), record)
        && selectedData == record
    {
      if fileToSend == "" {
        return;
      }
      if contents.None? || !isOpen || writeFails {
        errors := errors + [SendingFile];
        return;
      }
      written := written + [contents.value];
      var record := new CoreRecord.SerialData.CreateSentData(FileTag + fileToSend);
      AddSerialDataToList(record);
    }

    /** `Open`, through the `IsOpen` setter: opening an open port, or a port
        the driver refuses (`fails`), shows an error and leaves it as it was. */
    method Open(fails: bool)
      modifies this`isOpen, this`errors
      ensures old(isOpen) || fails ==> isOpen == old(isOpen) && errors == old(errors) + [SwitchingIsOpen]
      ensures !old(isOpen) && !fails ==> isOpen && errors == old(errors)
    {
      if isOpen || fails {
        errors := errors + [SwitchingIsOpen];
      } else {
        isOpen := true;
      }
    }

    /** `Close`, through the `IsOpen` setter: the port is closed and its
        unread input is gone; closing a closed port does nothing. */
    method Close()
      modifies this`isOpen, this`inBuffer
      ensures !isOpen
      ensures inBuffer == if old(isOpen) then [] else old(inBuffer)
    {
      if isOpen {
        isOpen := false;
        inBuffer := [];
      }
    }
  }
}
