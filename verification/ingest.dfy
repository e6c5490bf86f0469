/**
 * Reading the delivery-log sheet: rider-ID validation, the boolean cells, the
 * keep/skip filter over rows, and the upsert of accepted logs keyed by
 * (rider, date).
 *
 * Turning a date cell into a day (`new Date(...)`) and a count cell into a number
 * (`parseInt`) are parameters: the model fixes what the filter does with their
 * answers, not how JavaScript computes them.
 */
module Ingest {
  import opened Wrappers
  import opened JsText
  import opened Seqs
  import opened Tables

  /** A calendar day, as the number of days since some fixed origin. */
  type Day = int

  // ---------------------------------------------------------------- rider IDs

  /** One position of an anchored regular expression built from literals and `\d`. */
  datatype Atom = Lit(c: char) | Digit

  predicate AtomMatches(a: Atom, c: char) {
    match a
    case Lit(x) => c == x
    case Digit => IsDigit(c)
  }

  /** `/^BC\d{6}$/`. */
  const RiderIdPattern: seq<Atom> := [Lit('B'), Lit('C'), Digit, Digit, Digit, Digit, Digit, Digit]

  /** `pattern.test(s)` for an anchored pattern of single-character atoms. */
  predicate FullMatch(p: seq<Atom>, s: string)
    decreases |p|
  {
    if |p| == 0 then |s| == 0
    else |s| > 0 && AtomMatches(p[0], s[0]) && FullMatch(p[1..], s[1..])
  }

  /** An anchored pattern of single-character atoms matches position by position. */
  lemma {:induction false} FullMatchPointwise(p: seq<Atom>, s: string)
    ensures FullMatch(p, s) <==> |s| == |p| && forall i :: 0 <= i < |p| ==> AtomMatches(p[i], s[i])
    decreases |p|
  {
    if |p| > 0 && |s| > 0 {
      FullMatchPointwise(p[1..], s[1..]);
      if AtomMatches(p[0], s[0]) && |s| == |p| && (forall i :: 0 <= i < |p| - 1 ==> AtomMatches(p[1..][i], s[1..][i])) {
        forall i | 0 <= i < |p|
          ensures AtomMatches(p[i], s[i])
        {
          if i > 0 {
            assert p[1..][i - 1] == p[i] && s[1..][i - 1] == s[i];
          }
        }
      }
    }
  }

  /** The shape the pattern accepts: "BC" followed by exactly six ASCII digits. */
  predicate IsRiderIdShape(s: string) {
    |s| == 8 && s[0] == 'B' && s[1] == 'C' && AllDigits(s[2..])
  }

  lemma RiderIdPatternShape(s: string)
    ensures FullMatch(RiderIdPattern, s) <==> IsRiderIdShape(s)
  {
    FullMatchPointwise(RiderIdPattern, s);
    if |s| == 8 {
      assert forall i :: 2 <= i < 8 ==> s[2..][i - 2] == s[i];
    }
  }

  /** `validateRiderId`: a falsy or non-string value is rejected before the pattern is tried. */
  function ValidateRiderId(v: JsValue): (ok: bool)
    ensures ok <==> v.Str? && IsRiderIdShape(v.s)
  {
    if !Truthy(v) || !v.Str? then false
    else
      RiderIdPatternShape(v.s);
      FullMatch(RiderIdPattern, v.s)
  }

  function DigitChar(d: nat): (c: char)
    requires d < 10
    ensures IsDigit(c) && c as int - '0' as int == d
  {
    (d + '0' as int) as char
  }

  function Pow10(n: nat): (p: nat)
    ensures p >= 1
  {
    if n == 0 then 1 else 10 * Pow10(n - 1)
  }

  /** The value of a string of decimal digits. */
  function DigitsValue(s: string): (v: nat)
    requires AllDigits(s)
    ensures v < Pow10(|s|)
    decreases |s|
  {
    if |s| == 0 then 0
    else DigitsValue(s[..|s| - 1]) * 10 + (s[|s| - 1] as int - '0' as int)
  }

  /** `n` written in decimal with zeros in front, exactly `width` digits wide. */
  function PadDigits(n: nat, width: nat): (s: string)
    requires n < Pow10(width)
    ensures |s| == width && AllDigits(s)
    decreases width
  {
    if width == 0 then ""
    else PadDigits(n / 10, width - 1) + [DigitChar(n % 10)]
  }

  lemma {:induction false} PadDigitsValue(n: nat, width: nat)
    requires n < Pow10(width)
    ensures DigitsValue(PadDigits(n, width)) == n
    decreases width
  {
    if width > 0 {
      var s := PadDigits(n, width);
      PadDigitsValue(n / 10, width - 1);
      assert s[..|s| - 1] == PadDigits(n / 10, width - 1);
    }
  }

  lemma {:induction false} DigitsValuePad(s: string)
    requires AllDigits(s)
    ensures PadDigits(DigitsValue(s), |s|) == s
    decreases |s|
  {
    if |s| > 0 {
      var init := s[..|s| - 1];
      DigitsValuePad(init);
      assert s == init + [s[|s| - 1]];
    }
  }

  /** The rider ID with number `n`: "BC" and `n` zero-padded to six digits. */
  function RiderIdOf(n: nat): string
    requires n < 1000000
  {
    assert Pow10(6) == 1000000;
    "BC" + PadDigits(n, 6)
  }

  /**
   * The valid rider IDs are exactly "BC000000" to "BC999999": every number in
   * range gives a valid ID that reads back as the same number, and every valid ID
   * is the one written for its number.
   */
  lemma RiderIdRoundTrip(n: nat, s: string)
    requires n < 1000000
    ensures ValidateRiderId(Str(RiderIdOf(n)))
    ensures DigitsValue(RiderIdOf(n)[2..]) == n
    ensures ValidateRiderId(Str(s)) ==> DigitsValue(s[2..]) < 1000000 && RiderIdOf(DigitsValue(s[2..])) == s
  {
    assert Pow10(6) == 1000000;
    assert RiderIdOf(n)[2..] == PadDigits(n, 6);
    PadDigitsValue(n, 6);
    if ValidateRiderId(Str(s)) {
      DigitsValuePad(s[2..]);
      assert s == "BC" + s[2..];
    }
  }

  lemma RiderIdExamples()
    ensures ValidateRiderId(Str("BC123456"))
    ensures !ValidateRiderId(Str("BC12345"))
    ensures !ValidateRiderId(Str("bc123456"))
    ensures !ValidateRiderId(Str("BC1234567"))
    ensures !ValidateRiderId(Str(""))
    ensures !ValidateRiderId(Undefined) && !ValidateRiderId(Num(12345678))
  {
    assert IsRiderIdShape("BC123456") by {
      assert "BC123456"[2..] == "123456";
    }
    assert |"BC12345"| == 7 && |"BC1234567"| == 9;
    assert "bc123456"[0] == 'b';
  }

  // ----------------------------------------------------------------- booleans

  /** The spellings of "yes" in a boolean cell, after lower-casing and trimming. */
  predicate IsTrueWord(t: string) {
    t == "true" || t == "yes" || t == "1" || t == "o"
  }

  /** `parseBoolean`: booleans pass through, strings are compared after normalising, anything else is false. */
  function ParseBoolean(v: JsValue): (b: bool)
    ensures v.Bool? ==> b == v.b
    ensures v.Str? ==> (b <==> IsTrueWord(Trim(ToLower(v.s))))
    ensures !v.Bool? && !v.Str? ==> !b
  {
    match v
    case Bool(x) => x
    case Str(s) => IsTrueWord(Trim(ToLower(s)))
    case _ => false
  }

  /** Surrounding whitespace does not change how a cell is read. */
  lemma ParseBooleanIgnoresPadding(w1: string, s: string, w2: string)
    requires AllWhitespace(w1) && AllWhitespace(w2)
    ensures ParseBoolean(Str(w1 + s + w2)) == ParseBoolean(Str(s))
  {
    ToLowerPadded(w1, s, w2);
    TrimPadded(w1, ToLower(s), w2);
  }

  /** Upper-case spellings ("TRUE", "Yes", "O") read the same as lower-case ones. */
  lemma ParseBooleanIgnoresCase(s: string)
    ensures ParseBoolean(Str(ToUpper(s))) == ParseBoolean(Str(s))
  {
    ToLowerIgnoresCase(s);
  }

  /** The single letter "o" (as in O/X) counts as yes. */
  lemma ParseBooleanLetterO()
    ensures ParseBoolean(Str("o")) && ParseBoolean(Str("O"))
  {
    NormalisedUnchanged("o");
    ParseBooleanIgnoresCase("o");
    assert ToUpper("o") == "O";
  }

  lemma ParseBooleanNo()
    ensures !ParseBoolean(Str("no"))
  {
    NormalisedUnchanged("no");
  }

  // ---------------------------------------------------------------- row filter

  /** A row of the delivery-log sheet: one optional text cell per column. */
  datatype SheetRow = SheetRow(
    riderId: Option<string>,
    date: Option<string>,
    deliveryCount: Option<string>,
    rainy: Option<string>,
    surge: Option<string>,
    district: Option<string>)

  /** A row of the `delivery_logs` table. */
  datatype DeliveryLog = DeliveryLog(
    riderId: string,
    date: Day,
    deliveryCount: int,
    isRainy: bool,
    hasSurge: bool,
    district: string)

  /**
   * The JavaScript conversions the filter depends on: `new Date(text)` followed by
   * the validity test, and `parseInt(text)` (None standing for NaN).
   */
  datatype Parsers = Parsers(date: string -> Option<Day>, integer: string -> Option<int>)

  /** Why a row was dropped, or the log it became. */
  datatype RowVerdict = Blank | BadRiderId | BadDate | BadCount | Accepted(log: DeliveryLog)

  /** `formatDate`: an empty or missing cell is no date; otherwise the parser decides. */
  function FormatDate(cell: Option<string>, parsers: Parsers): (d: Option<Day>)
    ensures d.Some? ==> cell.Some? && cell.value != "" && parsers.date(cell.value) == d
  {
    if !Truthy(CellValue(cell)) then None else parsers.date(cell.value)
  }

  /** `parseInt(row.get(...))`: a missing cell is NaN. */
  function ParseCount(cell: Option<string>, parsers: Parsers): (n: Option<int>)
    ensures n.Some? ==> cell.Some? && parsers.integer(cell.value) == n
  {
    match cell
    case None => None
    case Some(s) => parsers.integer(s)
  }

  /** `row.get('배달구역') || ''`. */
  function DistrictOf(cell: Option<string>): (d: string)
    ensures d == cell.GetOr("")
  {
    if Truthy(CellValue(cell)) then cell.value else ""
  }

  predicate ValidLog(l: DeliveryLog) {
    ValidateRiderId(Str(l.riderId)) && l.deliveryCount >= 0
  }

  /** One iteration of the row loop in `readDeliveryLogs`, checks in source order. */
  function ClassifyRow(row: SheetRow, parsers: Parsers): (v: RowVerdict)
    ensures v.Blank? <==> !Truthy(CellValue(row.riderId)) && !Truthy(CellValue(row.date))
    ensures v.Accepted? ==> ValidLog(v.log)
  {
    if !Truthy(CellValue(row.riderId)) && !Truthy(CellValue(row.date)) then Blank
    else if !ValidateRiderId(CellValue(row.riderId)) then BadRiderId
    else
      match FormatDate(row.date, parsers)
      case None => BadDate
      case Some(day) =>
        match ParseCount(row.deliveryCount, parsers)
        case None => BadCount
        case Some(count) =>
          if count < 0 then BadCount
          else Accepted(DeliveryLog(
            row.riderId.value, day, count,
            ParseBoolean(CellValue(row.rainy)), ParseBoolean(CellValue(row.surge)),
            DistrictOf(row.district)))
  }

  /**
   * A row is accepted exactly when it is not blank, its rider ID is valid, its date
   * parses and its count parses to a non-negative number; the log then carries
   * those values, the two flags as `parseBoolean` reads them, and the district or ''.
   */
  lemma ClassifyRowAccepts(row: SheetRow, parsers: Parsers)
    ensures ClassifyRow(row, parsers).Accepted? <==>
      && ValidateRiderId(CellValue(row.riderId))
      && FormatDate(row.date, parsers).Some?
      && ParseCount(row.deliveryCount, parsers).Some?
      && ParseCount(row.deliveryCount, parsers).value >= 0
    ensures ClassifyRow(row, parsers).Accepted? ==>
      var l := ClassifyRow(row, parsers).log;
      && row.riderId == Some(l.riderId)
      && FormatDate(row.date, parsers) == Some(l.date)
      && ParseCount(row.deliveryCount, parsers) == Some(l.deliveryCount)
      && l.isRainy == ParseBoolean(CellValue(row.rainy))
      && l.hasSurge == ParseBoolean(CellValue(row.surge))
      && l.district == row.district.GetOr("")
  {
  }

  /** The verdict on every row, in sheet order. */
  function Verdicts(rows: seq<SheetRow>, parsers: Parsers): (vs: seq<RowVerdict>)
    ensures |vs| == |rows|
    ensures forall i :: 0 <= i < |rows| ==> vs[i] == ClassifyRow(rows[i], parsers)
  {
    seq(|rows|, i requires 0 <= i < |rows| => ClassifyRow(rows[i], parsers))
  }

  /** The logs of the accepted verdicts, in order: the `push` in the row loop. */
  function LogsOf(vs: seq<RowVerdict>): (logs: seq<DeliveryLog>)
    ensures |logs| <= |vs|
    ensures forall k :: 0 <= k < |logs| ==> Accepted(logs[k]) in vs
    decreases |vs|
  {
    if |vs| == 0 then []
    else
      var prev := LogsOf(vs[..|vs| - 1]);
      assert forall k :: 0 <= k < |prev| ==> Accepted(prev[k]) in vs;
      match vs[|vs| - 1]
      case Accepted(l) => prev + [l]
      case _ => prev
  }

  /** The logs `readDeliveryLogs` returns. */
  function ReadDeliveryLogs(rows: seq<SheetRow>, parsers: Parsers): (logs: seq<DeliveryLog>)
    ensures |logs| <= |rows|
    ensures forall k :: 0 <= k < |logs| ==> ValidLog(logs[k])
  {
    var vs := Verdicts(rows, parsers);
    var logs := LogsOf(vs);
    assert forall k :: 0 <= k < |logs| ==> ValidLog(logs[k]) by {
      forall k | 0 <= k < |logs|
        ensures ValidLog(logs[k])
      {
        var i :| 0 <= i < |vs| && vs[i] == Accepted(logs[k]);
      }
    }
    logs
  }

  /** The positions of the accepted verdicts, in increasing order. */
  function AcceptedPositions(vs: seq<RowVerdict>): (idx: seq<nat>)
    ensures forall k :: 0 <= k < |idx| ==> idx[k] < |vs| && vs[idx[k]].Accepted?
    ensures forall k, m :: 0 <= k < m < |idx| ==> idx[k] < idx[m]
    ensures forall i :: 0 <= i < |vs| && vs[i].Accepted? ==> i in idx
    decreases |vs|
  {
    if |vs| == 0 then []
    else
      var prev := AcceptedPositions(vs[..|vs| - 1]);
      if vs[|vs| - 1].Accepted? then prev + [|vs| - 1] else prev
  }

  lemma {:induction false} LogsOfPositions(vs: seq<RowVerdict>)
    ensures |LogsOf(vs)| == |AcceptedPositions(vs)|
    ensures forall k :: 0 <= k < |LogsOf(vs)| ==> LogsOf(vs)[k] == vs[AcceptedPositions(vs)[k]].log
    decreases |vs|
  {
    if |vs| > 0 {
      LogsOfPositions(vs[..|vs| - 1]);
    }
  }

  /**
   * The logs are an order-preserving subsequence of the sheet: the k-th log comes
   * from the k-th accepted row (positions strictly increasing), and every row not
   * among those positions was dropped.
   */
  lemma ReadDeliveryLogsSubsequence(rows: seq<SheetRow>, parsers: Parsers)
    ensures var idx := AcceptedPositions(Verdicts(rows, parsers));
      && |ReadDeliveryLogs(rows, parsers)| == |idx|
      && (forall k :: 0 <= k < |idx| ==> idx[k] < |rows| && ClassifyRow(rows[idx[k]], parsers).Accepted?)
      && (forall k, m :: 0 <= k < m < |idx| ==> idx[k] < idx[m])
      && (forall k :: 0 <= k < |idx| ==> ReadDeliveryLogs(rows, parsers)[k] == ClassifyRow(rows[idx[k]], parsers).log)
      && (forall i :: 0 <= i < |rows| && i !in idx ==> !ClassifyRow(rows[i], parsers).Accepted?)
  {
    LogsOfPositions(Verdicts(rows, parsers));
  }

  /** A row with neither a rider ID nor a date never becomes a log, whatever else it holds. */
  lemma BlankRowSkipped(rows: seq<SheetRow>, parsers: Parsers, row: SheetRow)
    requires row.riderId.GetOr("") == "" && row.date.GetOr("") == ""
    ensures ReadDeliveryLogs(rows + [row], parsers) == ReadDeliveryLogs(rows, parsers)
  {
    var vs := Verdicts(rows + [row], parsers);
    assert vs[..|vs| - 1] == Verdicts(rows, parsers);
  }

  // ------------------------------------------------------------------- upsert

  function LogKey(l: DeliveryLog): (string, Day) {
    (l.riderId, l.date)
  }

  /** The updated table and the two counters `syncDeliveryLogs` reports. */
  datatype SyncReport = SyncReport(table: seq<DeliveryLog>, successCount: nat, errorCount: nat)

  /**
   * `syncDeliveryLogs`: one upsert per log on (rider_id, delivery_date); `written`
   * says which upserts the store accepted.
   */
  function SyncDeliveryLogs(table: seq<DeliveryLog>, logs: seq<DeliveryLog>, written: DeliveryLog -> bool): (r: SyncReport)
    ensures r.successCount + r.errorCount == |logs|
    ensures r.successCount == |Filter(logs, written)|
    ensures |table| <= |r.table| <= |table| + r.successCount
    decreases |logs|
  {
    if |logs| == 0 then SyncReport(table, 0, 0)
    else
      var prev := SyncDeliveryLogs(table, logs[..|logs| - 1], written);
      var l := logs[|logs| - 1];
      FilterLast(logs, written);
      if written(l) then SyncReport(Upsert(prev.table, l, LogKey), prev.successCount + 1, prev.errorCount)
      else SyncReport(prev.table, prev.successCount, prev.errorCount + 1)
  }

  /** The synced table is the old one with every accepted log upserted in order. */
  lemma {:induction false} SyncIsBatchUpsert(table: seq<DeliveryLog>, logs: seq<DeliveryLog>, written: DeliveryLog -> bool)
    ensures SyncDeliveryLogs(table, logs, written).table == UpsertAll(table, Filter(logs, written), LogKey)
    decreases |logs|
  {
    if |logs| > 0 {
      SyncIsBatchUpsert(table, logs[..|logs| - 1], written);
      FilterLast(logs, written);
      var f := Filter(logs[..|logs| - 1], written);
      if written(logs[|logs| - 1]) {
        UpsertAllSnoc(table, f, logs[|logs| - 1], LogKey);
      } else {
        assert f + [] == f;
      }
    }
  }

  /**
   * After the sync each (rider, date) holds the last accepted log for it, other
   * keys are untouched, and the table still has one row per key.
   */
  lemma SyncContents(table: seq<DeliveryLog>, logs: seq<DeliveryLog>, written: DeliveryLog -> bool, k: (string, Day))
    ensures Lookup(SyncDeliveryLogs(table, logs, written).table, LogKey, k)
         == match LastWithKey(Filter(logs, written), LogKey, k)
            case Some(l) => Some(l)
            case None => Lookup(table, LogKey, k)
    ensures UniqueBy(table, LogKey) ==> UniqueBy(SyncDeliveryLogs(table, logs, written).table, LogKey)
  {
    SyncIsBatchUpsert(table, logs, written);
    LookupUpsertAll(table, Filter(logs, written), LogKey, k);
    if UniqueBy(table, LogKey) {
      UpsertAllKeepsUnique(table, Filter(logs, written), LogKey);
    }
  }
}
