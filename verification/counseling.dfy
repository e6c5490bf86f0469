/**
 * The counseling-case sync: sheet rows become cases, existing cases are
 * indexed by their sheet row number, each sheet case is inserted, updated or
 * skipped, and existing cases whose row has left the sheet are reported.
 */
module Counseling {
  import opened Wrappers
  import opened Seqs
  import opened JsText
  import Ingest
  import Store

  // ------------------------------------------------------------ dates

  /** `/^\d{4}-\d{2}-\d{2}$/`. */
  const IsoDatePattern: seq<Ingest.Atom> := [
    Ingest.Digit, Ingest.Digit, Ingest.Digit, Ingest.Digit, Ingest.Lit('-'),
    Ingest.Digit, Ingest.Digit, Ingest.Lit('-'), Ingest.Digit, Ingest.Digit]

  predicate IsIsoDate(s: string) {
    Ingest.FullMatch(IsoDatePattern, s)
  }

  /**
   * `parseDate`: a non-string, empty or blank value gives null; a trimmed
   * `YYYY-MM-DD` string is kept as it is; anything else goes to `other`, the
   * `new Date(...)` conversion, which is not modelled.
   */
  function ParseDate(v: JsValue, other: string -> Option<string>): (r: Option<string>)
    ensures !v.Str? ==> r.None?
    ensures v.Str? && AllWhitespace(v.s) ==> r.None?
    ensures v.Str? && IsIsoDate(Trim(v.s)) ==> r == Some(Trim(v.s))
  {
    TrimEmpty(if v.Str? then v.s else "");
    if !Truthy(v) || !v.Str? then None
    else
      var clean := Trim(v.s);
      if clean == "" then None
      else if IsIsoDate(clean) then Some(clean)
      else other(clean)
  }

  /** An ISO date surrounded by whitespace parses to the bare date, whatever `other` does. */
  lemma ParseDateIsoPadded(w1: string, d: string, w2: string, other: string -> Option<string>)
    requires IsIsoDate(d) && AllWhitespace(w1) && AllWhitespace(w2)
    ensures ParseDate(Str(w1 + d + w2), other) == Some(d)
  {
    Ingest.FullMatchPointwise(IsoDatePattern, d);
    assert Ingest.AtomMatches(IsoDatePattern[0], d[0]) && Ingest.AtomMatches(IsoDatePattern[9], d[9]);
    TrimUnpadded(d);
    TrimPadded(w1, d, w2);
  }

  // ------------------------------------------------------------ sheet rows

  /** The sheet columns read for one row; `None` is a cell `row.get` returns as `undefined`. */
  datatype CounselingRow = CounselingRow(
    no: Option<string>, cw: Option<string>, visitDate: Option<string>, visitTime: Option<string>,
    counselor: Option<string>, riderType: Option<string>, riderId: Option<string>, specialNotes: Option<string>,
    visitPurpose: Option<string>, counselingContent: Option<string>, mainContent: Option<string>,
    actionStatus: Option<string>, actionContent: Option<string>, assignedStaff: Option<string>,
    referenceLink: Option<string>, riderFeedback: Option<string>)

  /** A case as read from the sheet; `None` is `null`. */
  datatype Case = Case(
    sheetRowId: Option<string>, cwName: Option<string>, visitDate: Option<string>, visitTime: Option<string>,
    counselor: Option<string>, riderType: Option<string>, riderId: Option<string>, specialNotes: Option<string>,
    visitPurpose: Option<string>, counselingContent: Option<string>, mainContent: Option<string>,
    actionStatus: Option<string>, actionContent: Option<string>, assignedStaff: Option<string>,
    referenceLink: Option<string>, riderFeedback: Option<string>)

  /** `cell || null`: an empty or missing cell becomes null. */
  function OrNull(cell: Option<string>): (r: Option<string>)
    ensures r.Some? <==> cell.Some? && cell.value != ""
    ensures r.Some? ==> r == cell
  {
    if cell.Some? && cell.value != "" then cell else None
  }

  predicate NonEmpty(v: Option<string>) {
    v.None? || v.value != ""
  }

  /** No text field of the case is the empty string. */
  predicate NoEmptyText(c: Case) {
    && NonEmpty(c.sheetRowId) && NonEmpty(c.cwName) && NonEmpty(c.visitTime) && NonEmpty(c.counselor)
    && NonEmpty(c.riderType) && NonEmpty(c.riderId) && NonEmpty(c.specialNotes) && NonEmpty(c.visitPurpose)
    && NonEmpty(c.counselingContent) && NonEmpty(c.mainContent) && NonEmpty(c.actionStatus)
    && NonEmpty(c.actionContent) && NonEmpty(c.assignedStaff) && NonEmpty(c.referenceLink) && NonEmpty(c.riderFeedback)
  }

  /** `!row.get('No') && !row.get('아이디')`. */
  predicate BlankRow(row: CounselingRow) {
    !Truthy(CellValue(row.no)) && !Truthy(CellValue(row.riderId))
  }

  function ToCase(row: CounselingRow, other: string -> Option<string>): (c: Case)
    ensures NoEmptyText(c)
    ensures c.sheetRowId == OrNull(row.no) && c.riderId == OrNull(row.riderId)
    ensures c.counselingContent == OrNull(row.counselingContent)
    ensures c.visitDate == ParseDate(CellValue(row.visitDate), other)
  {
    Case(OrNull(row.no), OrNull(row.cw), ParseDate(CellValue(row.visitDate), other), OrNull(row.visitTime),
      OrNull(row.counselor), OrNull(row.riderType), OrNull(row.riderId), OrNull(row.specialNotes),
      OrNull(row.visitPurpose), OrNull(row.counselingContent), OrNull(row.mainContent),
      OrNull(row.actionStatus), OrNull(row.actionContent), OrNull(row.assignedStaff),
      OrNull(row.referenceLink), OrNull(row.riderFeedback))
  }

  /** `caseData.rider_id || caseData.counseling_content`. */
  predicate HasSubject(c: Case) {
    c.riderId.Some? || c.counselingContent.Some?
  }

  function KeepRow(other: string -> Option<string>): CounselingRow -> bool {
    (row: CounselingRow) => !BlankRow(row) && HasSubject(ToCase(row, other))
  }

  function CaseOf(other: string -> Option<string>): CounselingRow -> Case {
    (row: CounselingRow) => ToCase(row, other)
  }

  /** The row loop of `fetchSheetData`: skip blank rows, build the case, keep it if it names a rider or has content. */
  function SheetCases(rows: seq<CounselingRow>, other: string -> Option<string>): (cases: seq<Case>)
    ensures |cases| <= |rows|
    ensures forall i :: 0 <= i < |cases| ==> HasSubject(cases[i]) && NoEmptyText(cases[i])
  {
    Map(Filter(rows, KeepRow(other)), CaseOf(other))
  }

  /** Every row that is not blank and names a rider or has content yields its case. */
  lemma SheetCasesExactly(rows: seq<CounselingRow>, other: string -> Option<string>)
    ensures forall k :: 0 <= k < |rows| && !BlankRow(rows[k]) && HasSubject(ToCase(rows[k], other)) ==>
      ToCase(rows[k], other) in SheetCases(rows, other)
  {
    var kept := Filter(rows, KeepRow(other));
    forall k | 0 <= k < |rows| && !BlankRow(rows[k]) && HasSubject(ToCase(rows[k], other))
      ensures ToCase(rows[k], other) in SheetCases(rows, other)
    {
      assert rows[k] in kept;
      var m :| 0 <= m < |kept| && kept[m] == rows[k];
      assert SheetCases(rows, other)[m] == ToCase(rows[k], other);
    }
  }

  /** Every case comes from a row that is not blank and names a rider or has content. */
  lemma SheetCasesOnlyKept(rows: seq<CounselingRow>, other: string -> Option<string>, i: nat) returns (k: nat)
    requires i < |SheetCases(rows, other)|
    ensures k < |rows| && !BlankRow(rows[k]) && HasSubject(ToCase(rows[k], other))
    ensures SheetCases(rows, other)[i] == ToCase(rows[k], other)
  {
    var kept := Filter(rows, KeepRow(other));
    assert kept[i] in rows;
    k :| 0 <= k < |rows| && rows[k] == kept[i];
  }

  /**
   * One more sheet row adds its case exactly when the row is kept: together with
   * `SheetCases([]) == []` this pins the row loop down completely.
   */
  lemma SheetCasesSnoc(rows: seq<CounselingRow>, row: CounselingRow, other: string -> Option<string>)
    ensures SheetCases(rows + [row], other)
         == SheetCases(rows, other) + (if !BlankRow(row) && HasSubject(ToCase(row, other)) then [ToCase(row, other)] else [])
  {
    var keep := KeepRow(other);
    FilterLast(rows + [row], keep);
    assert (rows + [row])[..|rows|] == rows;
    var a := Filter(rows, keep);
    var b := if keep(row) then [row] else [];
    assert Map(a + b, CaseOf(other)) == Map(a, CaseOf(other)) + Map(b, CaseOf(other));
  }

  /** A row with neither a row number nor a rider ID is skipped, whatever else it holds. */
  lemma SheetCasesBlankSkipped(rows: seq<CounselingRow>, row: CounselingRow, other: string -> Option<string>)
    requires BlankRow(row)
    ensures SheetCases(rows + [row], other) == SheetCases(rows, other)
  {
    SheetCasesSnoc(rows, row, other);
  }

  // ------------------------------------------------------------ existing cases

  /** A stored case as far as the sync looks at it: its id, its sheet row number and its creation time. */
  datatype ExistingCase = ExistingCase(id: int, sheetRowId: JsValue, createdAt: int)

  /** `String(v)` for the values a row number column can hold. */
  function JsString(v: JsValue): string {
    match v
    case Undefined => "undefined"
    case Null => "null"
    case Bool(b) => if b then "true" else "false"
    case Num(n) => if n < 0 then "-" + Store.DecimalString(-n) else Store.DecimalString(n)
    case Str(s) => s
  }

  predicate Indexed(e: ExistingCase) {
    Truthy(e.sheetRowId)
  }

  function RowKey(e: ExistingCase): string {
    JsString(e.sheetRowId)
  }

  /**
   * The `existingCasesMap`: cases with a truthy row number, keyed by its string
   * form; a later case with the same key replaces an earlier one.
   */
  function Index(existing: seq<ExistingCase>): (idx: map<string, ExistingCase>)
    ensures forall k :: k in idx ==> idx[k] in existing && Indexed(idx[k]) && RowKey(idx[k]) == k
    ensures forall i :: 0 <= i < |existing| && Indexed(existing[i]) ==> RowKey(existing[i]) in idx
    decreases |existing|
  {
    if |existing| == 0 then map[]
    else
      var prev := Index(existing[..|existing| - 1]);
      var e := existing[|existing| - 1];
      assert forall i :: 0 <= i < |existing| - 1 ==> existing[..|existing| - 1][i] == existing[i];
      if Indexed(e) then prev[RowKey(e) := e] else prev
  }

  /** The case a key maps to is the last one in the list with that key. */
  lemma {:induction false} IndexIsLast(existing: seq<ExistingCase>, k: string) returns (i: nat)
    requires k in Index(existing)
    ensures i < |existing| && existing[i] == Index(existing)[k]
    ensures forall j :: i < j < |existing| && Indexed(existing[j]) ==> RowKey(existing[j]) != k
    decreases |existing|
  {
    var n := |existing|;
    var init := existing[..n - 1];
    var e := existing[n - 1];
    var prev := Index(init);
    assert Index(existing) == if Indexed(e) then prev[RowKey(e) := e] else prev;
    if Indexed(e) && RowKey(e) == k {
      i := n - 1;
    } else {
      assert k in prev && Index(existing)[k] == prev[k];
      i := IndexIsLast(init, k);
      forall j | i < j < n && Indexed(existing[j])
        ensures RowKey(existing[j]) != k
      {
        if j < n - 1 {
          assert init[j] == existing[j];
        }
      }
    }
  }

  /**
   * The cases arrive newest first (`order('created_at', { ascending: false })`),
   * so when two cases share a row number the OLDEST one is the one indexed.
   */
  lemma OldestCaseWins(existing: seq<ExistingCase>, j: nat)
    requires forall a, b :: 0 <= a < b < |existing| ==> existing[a].createdAt >= existing[b].createdAt
    requires j < |existing| && Indexed(existing[j])
    ensures Index(existing)[RowKey(existing[j])].createdAt <= existing[j].createdAt
  {
    var i := IndexIsLast(existing, RowKey(existing[j]));
    assert j <= i;
  }

  // ------------------------------------------------------------ classification

  /** What the loop does with one sheet case. */
  datatype Action = Skip | UpdateCase(target: ExistingCase, data: Case) | InsertCase(data: Case)

  /** Skip a case without a row number; update the indexed case with that number; otherwise insert. */
  function Decide(idx: map<string, ExistingCase>, c: Case): (a: Action)
    ensures a.Skip? <==> c.sheetRowId.None? || c.sheetRowId.value == ""
    ensures a.UpdateCase? <==> c.sheetRowId.Some? && c.sheetRowId.value != "" && c.sheetRowId.value in idx
    ensures a.UpdateCase? ==> a.target == idx[c.sheetRowId.value] && a.data == c
    ensures a.InsertCase? ==> a.data == c
  {
    match c.sheetRowId
    case None => Skip
    case Some(rowId) =>
      if rowId == "" then Skip
      else if rowId in idx then UpdateCase(idx[rowId], c)
      else InsertCase(c)
  }

  function DecideWith(idx: map<string, ExistingCase>): Case -> Action {
    (c: Case) => Decide(idx, c)
  }

  /** The writes the loop issues, one action per sheet case, in order. */
  function Plan(cases: seq<Case>, existing: seq<ExistingCase>): (plan: seq<Action>)
    ensures |plan| == |cases|
    ensures forall i :: 0 <= i < |cases| ==> plan[i] == Decide(Index(existing), cases[i])
  {
    Map(cases, DecideWith(Index(existing)))
  }

  datatype Tally = Tally(inserted: nat, updated: nat, skipped: nat)

  predicate Succeeded(ok: Action -> bool, a: Action) {
    !a.Skip? && ok(a)
  }

  /**
   * `newCount`, `updateCount` and `skipCount`; `ok` says which writes succeeded
   * (a write that throws is counted as a skip).
   */
  function Count(plan: seq<Action>, ok: Action -> bool): (t: Tally)
    ensures t.inserted + t.updated + t.skipped == |plan|
    decreases |plan|
  {
    if |plan| == 0 then Tally(0, 0, 0)
    else
      var prev := Count(plan[..|plan| - 1], ok);
      var a := plan[|plan| - 1];
      if a.InsertCase? && ok(a) then prev.(inserted := prev.inserted + 1)
      else if a.UpdateCase? && ok(a) then prev.(updated := prev.updated + 1)
      else prev.(skipped := prev.skipped + 1)
  }

  function InsertedOk(ok: Action -> bool): Action -> bool {
    (a: Action) => a.InsertCase? && ok(a)
  }

  function UpdatedOk(ok: Action -> bool): Action -> bool {
    (a: Action) => a.UpdateCase? && ok(a)
  }

  /** The counters count exactly the successful inserts and the successful updates. */
  lemma {:induction false} CountMeans(plan: seq<Action>, ok: Action -> bool)
    ensures Count(plan, ok).inserted == |Filter(plan, InsertedOk(ok))|
    ensures Count(plan, ok).updated == |Filter(plan, UpdatedOk(ok))|
    decreases |plan|
  {
    if |plan| > 0 {
      CountMeans(plan[..|plan| - 1], ok);
      FilterLast(plan, InsertedOk(ok));
      FilterLast(plan, UpdatedOk(ok));
    }
  }

  /** With every write succeeding, a case is skipped only for want of a row number. */
  lemma {:induction false} SkipsWithoutFailures(cases: seq<Case>, existing: seq<ExistingCase>)
    ensures Count(Plan(cases, existing), (a: Action) => true).skipped
         == |Filter(cases, (c: Case) => c.sheetRowId.None? || c.sheetRowId.value == "")|
    decreases |cases|
  {
    if |cases| > 0 {
      var init := cases[..|cases| - 1];
      SkipsWithoutFailures(init, existing);
      assert Plan(cases, existing)[..|cases| - 1] == Plan(init, existing);
      FilterLast(cases, (c: Case) => c.sheetRowId.None? || c.sheetRowId.value == "");
    }
  }

  // ------------------------------------------------------------ orphans

  /** `new Set(sheetCases.map(c => c.sheet_row_id?.toString()).filter(Boolean))`. */
  function SheetRowIds(cases: seq<Case>): (ids: set<string>)
    ensures forall k :: k in ids <==> exists i :: 0 <= i < |cases| && cases[i].sheetRowId == Some(k) && k != ""
  {
    set i | 0 <= i < |cases| && cases[i].sheetRowId.Some? && cases[i].sheetRowId.value != "" :: cases[i].sheetRowId.value
  }

  function OrphanWith(ids: set<string>): ExistingCase -> bool {
    (e: ExistingCase) => Indexed(e) && RowKey(e) !in ids
  }

  /** Existing cases with a row number that no sheet case carries; they are reported, never written. */
  function Orphans(existing: seq<ExistingCase>, cases: seq<Case>): (orphans: seq<ExistingCase>)
    ensures forall i :: 0 <= i < |orphans| ==> orphans[i] in existing && Indexed(orphans[i]) && RowKey(orphans[i]) !in SheetRowIds(cases)
    ensures forall j :: 0 <= j < |existing| && Indexed(existing[j]) && RowKey(existing[j]) !in SheetRowIds(cases) ==> existing[j] in orphans
  {
    Filter(existing, OrphanWith(SheetRowIds(cases)))
  }

  /** No update ever targets an orphan: the sync writes only cases whose row is still on the sheet. */
  lemma OrphansNeverUpdated(cases: seq<Case>, existing: seq<ExistingCase>)
    ensures forall a :: a in Plan(cases, existing) && a.UpdateCase? ==> !(a.target in Orphans(existing, cases))
  {
    var plan := Plan(cases, existing);
    var idx := Index(existing);
    forall a | a in plan && a.UpdateCase?
      ensures !(a.target in Orphans(existing, cases))
    {
      var i :| 0 <= i < |plan| && plan[i] == a;
      var k := cases[i].sheetRowId.value;
      assert k in SheetRowIds(cases);
      assert RowKey(a.target) == k;
    }
  }

  /** An indexed case whose row number is on the sheet is the target of that sheet case's update. */
  lemma MatchedCaseUpdated(cases: seq<Case>, existing: seq<ExistingCase>, i: nat)
    requires i < |cases| && cases[i].sheetRowId.Some? && cases[i].sheetRowId.value != ""
    requires cases[i].sheetRowId.value in Index(existing)
    ensures Plan(cases, existing)[i] == UpdateCase(Index(existing)[cases[i].sheetRowId.value], cases[i])
  {
  }
}
