/** The station directory: the station table of the ticketing site parsed
    into a map from telecode to display name and its inverse. The table is
    a script whose one quoted string holds `@`-separated entries, each a
    `|`-separated list of fields, field 1 the name and field 2 the code. */
module Stations {
  import opened GoStrings
  import TripRecords

  /** Separators of the station table: `'`, `@` and `|`. */
  const Quote: byte := 0x27
  const At: byte := 0x40
  const Bar: byte := TripRecords.Bar

  /** Field positions within a station entry. */
  const NameField: nat := 1
  const CodeField: nat := 2

  datatype Status = Ok | NotRecognizeFormat

  /** The table has the required shape: exactly three pieces around quotes. */
  predicate Recognized(content: GoString)
  {
    |Split(content, Quote)| == 3
  }

  /** The station entries of a recognized table. */
  function Entries(content: GoString): seq<GoString>
    requires Recognized(content)
  {
    Split(Split(content, Quote)[1], At)
  }

  /** The entry has at least three fields and its field `keyField` is `key`. */
  predicate Defines(entry: GoString, keyField: nat, key: GoString)
    requires keyField <= CodeField
  {
    var p := Split(entry, Bar);
    |p| > CodeField && p[keyField] == key
  }

  /** No entry after position `k` defines `key`. */
  predicate LastDefinition(entries: seq<GoString>, k: nat, keyField: nat, key: GoString)
    requires keyField <= CodeField
  {
    forall k' :: k < k' < |entries| ==> !Defines(entries[k'], keyField, key)
  }

  /** The map the loading loop builds from `entries`, keyed by field
      `keyField` and valued by field `valueField`; entries with fewer than
      three fields are skipped and a later entry overwrites an earlier one. */
  function StationIndex(entries: seq<GoString>, keyField: nat, valueField: nat): map<GoString, GoString>
    requires keyField <= CodeField && valueField <= CodeField
    decreases |entries|
  {
    if entries == [] then map[]
    else
      var m := StationIndex(entries[..|entries| - 1], keyField, valueField);
      var p := Split(entries[|entries| - 1], Bar);
      if |p| > CodeField then m[p[keyField] := p[valueField]] else m
  }

  /** A key is in the index exactly when some entry defines it, and then it
      maps to the value field of the last entry that does. */
  lemma {:induction false} StationIndexLastWins(entries: seq<GoString>, keyField: nat, valueField: nat, key: GoString)
    requires keyField <= CodeField && valueField <= CodeField
    ensures key in StationIndex(entries, keyField, valueField) <==>
            exists k :: 0 <= k < |entries| && Defines(entries[k], keyField, key)
    ensures forall k :: 0 <= k < |entries| && Defines(entries[k], keyField, key) && LastDefinition(entries, k, keyField, key) ==>
              StationIndex(entries, keyField, valueField)[key] == Split(entries[k], Bar)[valueField]
    decreases |entries|
  {
    if entries != [] {
      var n := |entries| - 1;
      var init := entries[..n];
      StationIndexLastWins(init, keyField, valueField, key);
      assert forall k :: 0 <= k < n ==> init[k] == entries[k];
      if Defines(entries[n], keyField, key) {
        forall k | 0 <= k < |entries| && Defines(entries[k], keyField, key) && LastDefinition(entries, k, keyField, key)
          ensures k == n
        {
        }
      } else {
        forall k | 0 <= k < n && LastDefinition(entries, k, keyField, key)
          ensures LastDefinition(init, k, keyField, key)
        {
        }
      }
    }
  }

  /** The table is rejected exactly when it does not hold two quote marks. */
  lemma RecognizedIffTwoQuotes(content: GoString)
    ensures Recognized(content) <==> Count(content, Quote) == 2
  {
    SplitCount(content, Quote);
  }

  /** The process-wide station directory (`railway12306`). */
  class Railway12306 {
    /** telecode -> name */
    var stationCode2NameMap: map<GoString, GoString>
    /** name -> telecode */
    var stationName2CodeMap: map<GoString, GoString>

    constructor ()
      ensures stationCode2NameMap == map[] && stationName2CodeMap == map[]
    {
      stationCode2NameMap := map[];
      stationName2CodeMap := map[];
    }

    /** LoadStationNames on the content of the station table. */
    method LoadStationNames(content: GoString) returns (status: Status)
      modifies this
      ensures !Recognized(content) ==>
                && status == NotRecognizeFormat
                && stationCode2NameMap == old(stationCode2NameMap)
                && stationName2CodeMap == old(stationName2CodeMap)
      ensures Recognized(content) ==>
                && status == Ok
                && stationCode2NameMap == StationIndex(Entries(content), CodeField, NameField)
                && stationName2CodeMap == StationIndex(Entries(content), NameField, CodeField)
    {
      var pieces := Split(content, Quote);
      if |pieces| != 3 {
        return NotRecognizeFormat;
      }
      var stations := Split(pieces[1], At);
      stationCode2NameMap := map[];
      stationName2CodeMap := map[];
      for k := 0 to |stations|
        invariant stationCode2NameMap == StationIndex(stations[..k], CodeField, NameField)
        invariant stationName2CodeMap == StationIndex(stations[..k], NameField, CodeField)
      {
        assert stations[..k + 1][..k] == stations[..k];
        var p := Split(stations[k], Bar);
        if |p| > 2 {
          stationName2CodeMap := stationName2CodeMap[p[1] := p[2]];
          stationCode2NameMap := stationCode2NameMap[p[2] := p[1]];
        }
      }
      assert stations[..|stations|] == stations;
      return Ok;
    }

    function GetStationNameByCode(code: GoString): (name: GoString)
      reads this
      ensures code in stationCode2NameMap ==> name == stationCode2NameMap[code]
      ensures code !in stationCode2NameMap ==> name == code
    {
      if code in stationCode2NameMap then stationCode2NameMap[code] else code
    }
  }

  /** After a successful load, looking up a telecode gives the name of the
      last entry with that code, or the code itself when no entry has it. */
  lemma NameByCodeAfterLoad(r: Railway12306, content: GoString, code: GoString)
    requires Recognized(content)
    requires r.stationCode2NameMap == StationIndex(Entries(content), CodeField, NameField)
    ensures var es := Entries(content);
            (forall k :: 0 <= k < |es| ==> !Defines(es[k], CodeField, code)) ==> r.GetStationNameByCode(code) == code
    ensures var es := Entries(content);
            forall k :: 0 <= k < |es| && Defines(es[k], CodeField, code) && LastDefinition(es, k, CodeField, code) ==>
              r.GetStationNameByCode(code) == Split(es[k], Bar)[NameField]
  {
    StationIndexLastWins(Entries(content), CodeField, NameField, code);
  }
}
