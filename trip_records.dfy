/** A trip record (`lineInfo`): the `|`-separated fields of one entry of the
    ticket query's result list, read by position. */
module TripRecords {
  import opened GoStrings

  /** Field positions of a record. */
  const StationTrainCode: nat := 3
  const StartStationTelecode: nat := 4
  const EndStationTelecode: nat := 5
  const FromStationTelecode: nat := 6
  const ToStationTelecode: nat := 7
  const StartTime: nat := 8
  const ArriveTime: nat := 9
  const CanWebBuy: nat := 11
  const SeatGrade2: nat := 30

  /** Station telecodes used by the query flow. */
  const StationShenZhenBei: GoString := [0x49, 0x4F, 0x51]   // "IOQ"
  const StationGuangZhouNan: GoString := [0x49, 0x5A, 0x51]  // "IZQ"
  const StationNanTou: GoString := [0x4E, 0x4F, 0x51]        // "NOQ"
  const StationRongGui: GoString := [0x52, 0x55, 0x51]       // "RUQ"

  /** The field separator of a raw record, `|`. */
  const Bar: byte := 0x7C

  /** A record: its fields, as many as the raw entry had. Nothing checks
      the count when a record is parsed; each operation that indexes a
      record requires the fields it reads to be there, because Go panics on
      an index past the end. FilterLinesCanNotBuy reads field 11,
      FilterStationNotMatch fields 6 and 7, FilterLinesWithoutSeatGrade2
      field 30, and the transfer matcher fields 8 and 9. */
  type LineInfo = seq<GoString>

  /** The loop of QueryTickets that turns each raw record of the decoded
      response into its fields, filling a result slice of the same length. */
  method SplitLines(raw: seq<GoString>) returns (lines: seq<LineInfo>)
    ensures |lines| == |raw|
    ensures forall i :: 0 <= i < |raw| ==> lines[i] == Split(raw[i], Bar)
    ensures forall i :: 0 <= i < |raw| ==> |lines[i]| == Count(raw[i], Bar) + 1
    ensures forall i :: 0 <= i < |raw| ==> Join(lines[i], Bar) == raw[i]
  {
    var result := new LineInfo[|raw|];
    for i := 0 to |raw|
      invariant forall k :: 0 <= k < i ==> result[k] == Split(raw[k], Bar)
    {
      result[i] := Split(raw[i], Bar);
    }
    lines := result[..];
    forall i | 0 <= i < |raw|
      ensures |lines[i]| == Count(raw[i], Bar) + 1 && Join(lines[i], Bar) == raw[i]
    {
      SplitCount(raw[i], Bar);
      SplitJoin(raw[i], Bar);
    }
  }
}
