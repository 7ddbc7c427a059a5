/** The error codes the calculator records and the messages it prints for
    them (`getErrorMessage` and `getErrorMessages`). */
module ErrorCodes {
  import opened Outcomes
  import opened PhpStrings

  const AddressEmpty: int := 128
  const AddressInvalid: int := 129
  const AddressNotString: int := 130
  const AddressLongToo: int := 131
  const SubnetUndefined: int := 256
  const AddressNotSegmented: int := 132
  const AddressSegmentsCount: int := 133
  const QueryEmpty: int := 64
  const QueryInvalid: int := 65
  const QueryTooLong: int := 66
  const PrefixNotNumeric: int := 197
  const PrefixEmpty: int := 196
  const PrefixRange: int := 198
  const PrefixInvalid: int := 199

  /** The message thrown for a code without a message. */
  const UndefinedMessage: string := "Error messages is not defined"

  /** `PHP_EOL` on the platforms the calculator is served from. */
  const EndOfLine: char := '\n'

  /** The message table of `getErrorMessage`. `SubnetUndefined` has none. */
  const Messages: map<int, string> := map[
    QueryEmpty := "Query string is empty",
    QueryInvalid := "Query string is invalid",
    QueryTooLong := "Query string is too long",
    AddressInvalid := "IP address is invalid",
    AddressEmpty := "IP address value is empty",
    AddressNotString := "IP address value is not a string",
    AddressLongToo := "IP address string is too long",
    AddressNotSegmented := "IP address has not segments",
    AddressSegmentsCount := "IP address has too many segments",
    PrefixEmpty := "Prefix is empty",
    PrefixNotNumeric := "Prefix is not numeric",
    PrefixRange := "Prefix is not a valid range",
    PrefixInvalid := "Prefix is invalid"
  ]

  /** The codes that have a message. */
  predicate HasMessage(code: int) {
    code in Messages
  }

  /** `getErrorMessage($id)`: the message of a known code; any other code
      throws. */
  function ErrorMessage(code: int): (r: Flow<string>)
    ensures r.Returned? <==> HasMessage(code)
    ensures r.Thrown? ==> r.message == UndefinedMessage
  {
    if code in Messages then Returned(Messages[code]) else Thrown(UndefinedMessage)
  }

  /** Every message is one non-empty line. */
  lemma MessageIsLine(code: int)
    requires HasMessage(code)
    ensures ErrorMessage(code).value != "" && EndOfLine !in ErrorMessage(code).value
  {
    if code in {QueryEmpty, QueryInvalid, QueryTooLong} {
      QueryMessagesAreLines(code);
    } else if code in {AddressInvalid, AddressEmpty, AddressNotString} {
      AddressMessagesAreLines(code);
    } else if code in {AddressLongToo, AddressNotSegmented, AddressSegmentsCount} {
      SegmentMessagesAreLines(code);
    } else {
      PrefixMessagesAreLines(code);
    }
  }

  lemma QueryMessagesAreLines(code: int)
    requires code in {QueryEmpty, QueryInvalid, QueryTooLong}
    ensures Messages[code] != "" && EndOfLine !in Messages[code]
  {
  }

  lemma AddressMessagesAreLines(code: int)
    requires code in {AddressInvalid, AddressEmpty, AddressNotString}
    ensures Messages[code] != "" && EndOfLine !in Messages[code]
  {
  }

  lemma SegmentMessagesAreLines(code: int)
    requires code in {AddressLongToo, AddressNotSegmented, AddressSegmentsCount}
    ensures Messages[code] != "" && EndOfLine !in Messages[code]
  {
  }

  lemma PrefixMessagesAreLines(code: int)
    requires code in {PrefixEmpty, PrefixNotNumeric, PrefixRange, PrefixInvalid}
    ensures Messages[code] != "" && EndOfLine !in Messages[code]
  {
  }

  /** `SubnetUndefined` is declared but has no message. */
  lemma SubnetUndefinedHasNoMessage()
    ensures ErrorMessage(SubnetUndefined) == Thrown(UndefinedMessage)
  {
  }

  /** `getErrorMessages()`: the message of every recorded code, in order,
      each followed by an end of line; the first code without a message
      throws. */
  function ErrorReport(codes: seq<int>): (r: Flow<string>)
    ensures r.Returned? <==> AllHaveMessages(codes)
    ensures r.Thrown? ==> r.message == UndefinedMessage
  {
    if |codes| == 0 then Returned("")
    else
      AllHaveMessagesSplit(codes);
      match ErrorMessage(codes[0])
      case Thrown(m) => Thrown(m)
      case Returned(line) => PrependTo(line + [EndOfLine], ErrorReport(codes[1..]))
  }

  /** A text in front of whatever a call returns; a throw passes through. */
  function PrependTo(prefix: string, f: Flow<string>): (r: Flow<string>)
    ensures r.Returned? <==> f.Returned?
    ensures r.Returned? ==> r.value == prefix + f.value
    ensures r.Thrown? ==> r == f
  {
    match f
    case Returned(s) => Returned(prefix + s)
    case Thrown(m) => Thrown(m)
  }

  /** Every recorded code has a message. */
  predicate AllHaveMessages(codes: seq<int>) {
    forall i :: 0 <= i < |codes| ==> HasMessage(codes[i])
  }

  lemma AllHaveMessagesSplit(codes: seq<int>)
    requires |codes| >= 1
    ensures AllHaveMessages(codes) <==> HasMessage(codes[0]) && AllHaveMessages(codes[1..])
  {
    assert forall i :: 1 <= i < |codes| ==> codes[i] == codes[1..][i - 1];
  }

  /** The messages of `codes`, in order. */
  function MessageList(codes: seq<int>): (lines: seq<string>)
    requires AllHaveMessages(codes)
    ensures |lines| == |codes|
    ensures forall i :: 0 <= i < |codes| ==> lines[i] == ErrorMessage(codes[i]).value
  {
    if |codes| == 0 then [] else [ErrorMessage(codes[0]).value] + MessageList(codes[1..])
  }

  /** The report is produced exactly when every code has a message, and then
      its lines, read back with `explode(PHP_EOL, ...)`, are the messages in
      order followed by an empty last piece. */
  lemma {:induction false} ErrorReportLines(codes: seq<int>)
    ensures ErrorReport(codes).Returned? <==> AllHaveMessages(codes)
    ensures ErrorReport(codes).Returned? ==> Split(ErrorReport(codes).value, EndOfLine) == MessageList(codes) + [""]
    ensures ErrorReport(codes).Thrown? ==> ErrorReport(codes).message == UndefinedMessage
  {
    if codes == [] {
      SplitWhole("", EndOfLine);
    } else {
      var rest := codes[1..];
      ErrorReportLines(rest);
      if ErrorMessage(codes[0]).Returned? && ErrorReport(rest).Returned? {
        var line, tail := ErrorMessage(codes[0]).value, ErrorReport(rest).value;
        MessageIsLine(codes[0]);
        SplitAfterPiece(line, tail, EndOfLine);
        assert ErrorReport(codes).value == line + [EndOfLine] + tail;
        assert MessageList(codes) + [""] == [line] + (MessageList(rest) + [""]);
      }
    }
  }
}
