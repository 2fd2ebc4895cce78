/** Block fetching in src/connections/db2.cpp: rows arrive a block at a time in bound buffers, and the
    cursor hands them out one at a time. */
module Db2Fetch {

  datatype Field = Null | Lob | Value(data: string)

  type Row = seq<Field>

  datatype ReturnCode = Success | SuccessWithInfo | NoData | Error

  datatype RowStatus = RowSuccess | RowSuccessWithInfo | NoRow

  predicate IsGood(status: RowStatus) {
    status.RowSuccess? || status.RowSuccessWithInfo?
  }

  function Min(a: nat, b: nat): nat {
    if a < b then a else b
  }

  /** A DB2 statement with a result set open on it. Which kind of success a fetch reports, and whether
      it fails, isn't known. */
  class Statement {
    const rows: seq<Row>
    var delivered: nat
    /** Whether any call failed. */
    var failed: bool

    constructor (rows: seq<Row>)
      ensures this.rows == rows && delivered == 0 && !failed
    {
      this.rows, delivered, failed := rows, 0, false;
    }

    /** Fills the bound row buffers and row statuses with the next rows. Past the last row it reports
        that there is no data, or, as some versions do, success with no row. */
    method FetchScroll(slots: array<Row>, rowstat: array<RowStatus>) returns (result: ReturnCode)
      requires delivered <= |rows| && slots.Length == rowstat.Length
      modifies this, slots, rowstat
      ensures old(failed) ==> failed
      ensures result.Error? ==> failed && delivered == old(delivered)
      ensures !result.Error? ==> failed == old(failed)
      ensures result.NoData? ==> delivered == old(delivered) == |rows|
      ensures result.Success? || result.SuccessWithInfo? ==>
        var group := Min(slots.Length, |rows| - old(delivered));
        && delivered == old(delivered) + group
        && (forall i :: 0 <= i < group ==> slots[i] == rows[old(delivered) + i] && IsGood(rowstat[i]))
        && (forall i :: group <= i < rowstat.Length ==> rowstat[i] == NoRow)
    {
      var broken: bool, quirk: bool, info: bool := *, *, *;
      if broken {
        failed := true;
        return Error;
      }
      if delivered == |rows| && !quirk {
        return NoData;
      }
      var group := Min(slots.Length, |rows| - delivered);
      var i := 0;
      while i < slots.Length
        invariant 0 <= i <= slots.Length
        invariant delivered == old(delivered) && failed == old(failed)
        invariant forall j :: 0 <= j < i && j < group ==> slots[j] == rows[delivered + j] && IsGood(rowstat[j])
        invariant forall j :: group <= j < i ==> rowstat[j] == NoRow
      {
        if i < group {
          var warned: bool := *;
          slots[i] := rows[delivered + i];
          rowstat[i] := if warned then RowSuccessWithInfo else RowSuccess;
        } else {
          rowstat[i] := NoRow;
        }
        i := i + 1;
      }
      delivered := delivered + group;
      result := if info then SuccessWithInfo else Success;
    }
  }

  predicate StartsBlock(row: nat, size: nat)
    requires size >= 1
  {
    row % size == 0
  }

  class Cursor {
    const stmt: Statement
    const slots: array<Row>
    const rowstat: array<RowStatus>
    var rowgroupindex: nat
    var totalinrowgroup: nat
    var totalrows: nat
    var rownumber: nat
    /** The rows passed over, by skipRow or nextRow. */
    ghost var passed: nat

    ghost predicate Shaped()
      reads this, stmt, slots, rowstat
    {
      && slots.Length == rowstat.Length >= 1
      && totalinrowgroup <= totalrows == stmt.delivered <= |stmt.rows|
      && totalinrowgroup <= slots.Length
      && StartsBlock(totalrows - totalinrowgroup, slots.Length)
      && (totalrows < |stmt.rows| ==> totalinrowgroup == slots.Length || totalrows == 0)
    }

    /** The slots hold the block. */
    ghost predicate Loaded()
      requires Shaped()
      reads this, stmt, slots, rowstat
    {
      forall i :: 0 <= i < totalinrowgroup ==> slots[i] == stmt.rows[totalrows - totalinrowgroup + i]
    }

    /** The row at rowgroupindex is the one after those passed over. */
    ghost predicate OnRow()
      reads this, stmt, slots, rowstat
    {
      && Shaped() && Loaded()
      && rowgroupindex < totalinrowgroup
      && passed == totalrows - totalinrowgroup + rowgroupindex
    }

    /** Every row handed out has been passed over. */
    ghost predicate BetweenRows()
      reads this, stmt, slots, rowstat
    {
      && Shaped()
      && if rowgroupindex == 0 then passed == totalrows
         else Loaded() && rowgroupindex <= totalinrowgroup && passed == totalrows - totalinrowgroup + rowgroupindex
    }

    /** What executeQuery() leaves, with a new result set. */
    constructor (stmt: Statement, fetchatonce: nat)
      requires fetchatonce >= 1 && stmt.delivered == 0
      ensures this.stmt == stmt && slots.Length == fetchatonce && BetweenRows() && passed == 0
      ensures fresh(slots) && fresh(rowstat)
    {
      this.stmt := stmt;
      slots, rowstat := new Row[fetchatonce](_ => []), new RowStatus[fetchatonce](_ => NoRow);
      rowgroupindex, totalinrowgroup, totalrows, rownumber, passed := 0, 0, 0, 0, 0;
    }

    /** Runs through the row statuses to see how many rows the block holds. */
    method RowsInBlock(ghost group: nat) returns (index: nat)
      requires group <= rowstat.Length
      requires forall i :: 0 <= i < group ==> IsGood(rowstat[i])
      requires forall i :: group <= i < rowstat.Length ==> rowstat[i] == NoRow
      ensures index == group
    {
      index := 0;
      while index < rowstat.Length && IsGood(rowstat[index])
        invariant index <= group
      {
        index := index + 1;
      }
    }

    /** There is a row iff not every row has been passed over, and it is the next one, in the slot that
        its number leaves when divided by the block size. */
    method FetchRow() returns (ok: bool, error: bool)
      requires BetweenRows()
      modifies this, stmt, slots, rowstat
      ensures passed == old(passed)
      ensures old(stmt.failed) ==> stmt.failed
      ensures error ==> !ok && stmt.failed
      ensures !error ==> stmt.failed == old(stmt.failed) && (ok <==> passed < |stmt.rows|)
      ensures if ok then OnRow() else BetweenRows()
      ensures ok ==> rowgroupindex == passed % slots.Length && slots[rowgroupindex] == stmt.rows[passed]
    {
      if rowgroupindex == slots.Length {
        rowgroupindex := 0;
      }
      if rowgroupindex > 0 && rowgroupindex == totalinrowgroup {
        return false, false;
      }
      if rowgroupindex == 0 {
        var fetched: bool;
        fetched, error := FetchBlock();
        if !fetched {
          return false, error;
        }
      }
      SlotOf(totalrows - totalinrowgroup, rowgroupindex, slots.Length);
      return true, false;
    }

    /** The part of fetchRow() that asks for another block. */
    method FetchBlock() returns (ok: bool, error: bool)
      requires Shaped() && rowgroupindex == 0 && passed == totalrows
      modifies this, stmt, slots, rowstat
      ensures passed == old(passed) && rowgroupindex == 0
      ensures old(stmt.failed) ==> stmt.failed
      ensures error ==> !ok && stmt.failed
      ensures !error ==> stmt.failed == old(stmt.failed) && (ok <==> passed < |stmt.rows|)
      ensures if ok then OnRow() else BetweenRows()
    {
      hide StartsBlock;
      var result := stmt.FetchScroll(slots, rowstat);
      if result.Error? {
        return false, true;
      }
      if !result.Success? && !result.SuccessWithInfo? {
        return false, false;
      }
      ghost var base := totalrows;
      ghost var group := Min(slots.Length, |stmt.rows| - base);
      var index := RowsInBlock(group);
      rownumber := totalrows + index;
      if rownumber == totalrows {
        return false, false;
      }
      NextBlock(totalrows - totalinrowgroup, totalrows, slots.Length);
      totalinrowgroup := rownumber - totalrows;
      totalrows := rownumber;
      assert totalrows - totalinrowgroup == base && Shaped();
      return true, false;
    }

    method SkipRow() returns (ok: bool, error: bool)
      requires BetweenRows()
      modifies this, stmt, slots, rowstat
      ensures BetweenRows()
      ensures old(stmt.failed) ==> stmt.failed
      ensures error ==> !ok && stmt.failed
      ensures !error ==> stmt.failed == old(stmt.failed) && (ok <==> old(passed) < |stmt.rows|)
      ensures passed == old(passed) + if ok then 1 else 0
    {
      ok, error := FetchRow();
      if ok {
        NextRow();
      }
    }

    method NextRow()
      requires OnRow()
      modifies this`rowgroupindex, this`passed
      ensures BetweenRows() && passed == old(passed) + 1
    {
      rowgroupindex := rowgroupindex + 1;
      passed := passed + 1;
    }

    method GetField(col: nat) returns (field: Field)
      requires OnRow() && col < |stmt.rows[passed]|
      ensures field == stmt.rows[passed][col]
    {
      assert slots[rowgroupindex] == stmt.rows[totalrows - totalinrowgroup + rowgroupindex];
      field := slots[rowgroupindex][col];
    }
  }

  /** Blocks start at multiples of the block size. */
  lemma NextBlock(base: nat, end: nat, size: nat)
    requires size >= 1 && StartsBlock(base, size)
    ensures end == base + size || end == 0 ==> StartsBlock(end, size)
  {
    if end == base + size {
      assert end == size * (base / size + 1);
      MultipleMod(base / size + 1, size);
    }
  }

  lemma MultipleMod(k: nat, size: nat)
    requires size >= 1
    ensures (size * k) % size == 0
  {
    SlotOfMultiple(k, 0, size);
  }

  lemma SlotOfMultiple(k: nat, r: nat, size: nat)
    requires r < size
    ensures (size * k + r) % size == r
  {
    var n := size * k + r;
    SameQuotient(size, k, r, n / size, n % size);
  }

  lemma SameQuotient(size: nat, k: nat, r: nat, q: nat, m: nat)
    requires r < size && m < size && size * k + r == size * q + m
    ensures r == m
  {
    assert size * k - size * q == size * (k - q) == m - r;
    if k > q {
      AtLeastOnce(size, k - q);
    } else if k < q {
      AtLeastOnce(size, q - k);
    }
  }

  lemma AtLeastOnce(size: nat, times: nat)
    requires times >= 1
    ensures size * times >= size
  {
  }

  lemma BlockBase(base: nat, size: nat)
    requires size >= 1 && StartsBlock(base, size)
    ensures base == size * (base / size)
  {
  }

  lemma SlotOf(base: nat, r: nat, size: nat)
    requires r < size && StartsBlock(base, size)
    ensures (base + r) % size == r
  {
    BlockBase(base, size);
    hide StartsBlock;
    SlotOfMultiple(base / size, r, size);
  }

  // ------------------------------------------------------------ runs

  datatype Operation = Skip | Take

  datatype Outcome = Skipped | Taken(slot: nat, row: Row) | End | Failed

  /** What a cursor that holds one row at a time, the one after those passed over, does. */
  function OneRow(rows: seq<Row>, passed: nat, size: nat, operation: Operation): Outcome
    requires size >= 1
  {
    if passed >= |rows| then End
    else if operation.Skip? then Skipped
    else Taken(passed % size, rows[passed])
  }

  function OneRowAtATime(rows: seq<Row>, passed: nat, size: nat, operations: seq<Operation>): (r: seq<Outcome>)
    requires size >= 1
    ensures |r| == |operations|
    decreases |operations|
  {
    if operations == [] then []
    else [OneRow(rows, passed, size, operations[0])]
         + OneRowAtATime(rows, if passed < |rows| then passed + 1 else passed, size, operations[1..])
  }

  method GetFields(cursor: Cursor) returns (row: Row)
    requires cursor.OnRow()
    ensures row == cursor.stmt.rows[cursor.passed]
  {
    row := [];
    var col := 0;
    ghost var fields := cursor.stmt.rows[cursor.passed];
    while col < |cursor.slots[cursor.rowgroupindex]|
      invariant cursor.slots[cursor.rowgroupindex] == fields
      invariant col <= |fields| && row == fields[..col]
    {
      var field := cursor.GetField(col);
      row := row + [field];
      col := col + 1;
    }
  }

  /** skipRow(), or fetchRow(), getField() of every column and nextRow(). */
  method Operate(cursor: Cursor, operation: Operation) returns (outcome: Outcome)
    requires cursor.BetweenRows()
    modifies cursor, cursor.stmt, cursor.slots, cursor.rowstat
    ensures cursor.BetweenRows()
    ensures old(cursor.stmt.failed) ==> cursor.stmt.failed
    ensures outcome.Failed? ==> cursor.stmt.failed
    ensures !outcome.Failed? ==>
      outcome == OneRow(cursor.stmt.rows, old(cursor.passed), cursor.slots.Length, operation)
    ensures cursor.passed == old(cursor.passed) + if IsSuccess(outcome) then 1 else 0
  {
    hide Cursor.Shaped, Cursor.Loaded;
    if operation.Skip? {
      var ok, error := cursor.SkipRow();
      return if ok then Skipped else if error then Failed else End;
    }
    var ok, error := cursor.FetchRow();
    if !ok {
      return if error then Failed else End;
    }
    var row := GetFields(cursor);
    outcome := Taken(cursor.rowgroupindex, row);
    cursor.NextRow();
  }

  predicate IsSuccess(outcome: Outcome) {
    outcome.Skipped? || outcome.Taken?
  }

  function Successes(outcomes: seq<Outcome>): nat {
    if outcomes == [] then 0 else (if IsSuccess(outcomes[0]) then 1 else 0) + Successes(outcomes[1..])
  }

  /** Each outcome that isn't a failure is that of a cursor that holds one row at a time and that has passed
      over the rows of the successes so far. */
  ghost predicate AreOneRow(rows: seq<Row>, start: nat, size: nat, operations: seq<Operation>, outcomes: seq<Outcome>)
    requires size >= 1 && |operations| == |outcomes|
  {
    forall i :: 0 <= i < |outcomes| ==>
      outcomes[i].Failed? || outcomes[i] == OneRow(rows, start + Successes(outcomes[..i]), size, operations[i])
  }

  /** Any mix of operations does what a cursor that holds one row at a time does, around the calls to DB2 that
      fail, if any do. */
  method Drive(cursor: Cursor, operations: seq<Operation>) returns (outcomes: seq<Outcome>)
    requires cursor.BetweenRows()
    modifies cursor, cursor.stmt, cursor.slots, cursor.rowstat
    ensures cursor.BetweenRows() && |outcomes| == |operations|
    ensures AreOneRow(cursor.stmt.rows, old(cursor.passed), cursor.slots.Length, operations, outcomes)
    ensures cursor.passed == old(cursor.passed) + Successes(outcomes)
    ensures Failed in outcomes ==> cursor.stmt.failed
  {
    hide Cursor.BetweenRows, OneRow, Successes;
    outcomes := [];
    ghost var rows, size, start := cursor.stmt.rows, cursor.slots.Length, cursor.passed;
    assert size >= 1 by { BlockIsNotEmpty(cursor); }
    NoOutcomes();
    while |outcomes| < |operations|
      invariant |outcomes| <= |operations| && cursor.BetweenRows()
      invariant cursor.passed == start + Successes(outcomes)
      invariant AreOneRow(rows, start, size, operations[..|outcomes|], outcomes)
      invariant Failed in outcomes ==> cursor.stmt.failed
      decreases |operations| - |outcomes|
    {
      ghost var before := outcomes;
      var outcome := Operate(cursor, operations[|outcomes|]);
      OneMoreSuccess(before, outcome);
      outcomes := outcomes + [outcome];
      assert forall i :: 0 <= i <= |before| ==> outcomes[..i] == before[..i];
      assert before[..|before|] == before;
    }
    assert operations[..|outcomes|] == operations;
  }

  lemma NoOutcomes()
    ensures Successes([]) == 0
  {
  }

  lemma {:induction false} OneMoreSuccess(outcomes: seq<Outcome>, outcome: Outcome)
    ensures Successes(outcomes + [outcome]) == Successes(outcomes) + if IsSuccess(outcome) then 1 else 0
  {
    if outcomes == [] {
      assert [outcome][1..] == [];
      assert outcomes + [outcome] == [outcome];
    } else {
      OneMoreSuccess(outcomes[1..], outcome);
      assert (outcomes + [outcome])[1..] == outcomes[1..] + [outcome];
    }
  }

  lemma BlockIsNotEmpty(cursor: Cursor)
    requires cursor.BetweenRows()
    ensures cursor.slots.Length >= 1
  {
  }

  /** There are as many successes as rows, if they are asked for; the k-th success has row k, in slot
      k mod the block size; and after the last row there is only the end. */
  lemma {:induction false} EveryRowOnce(rows: seq<Row>, passed: nat, size: nat, operations: seq<Operation>)
    requires size >= 1 && passed <= |rows|
    ensures
      var outcomes := OneRowAtATime(rows, passed, size, operations);
      && Successes(outcomes) == Min(|operations|, |rows| - passed)
      && forall i :: 0 <= i < |outcomes| ==>
           if i < |rows| - passed
           then outcomes[i] == if operations[i].Skip? then Skipped else Taken((passed + i) % size, rows[passed + i])
           else outcomes[i] == End
    decreases |operations|
  {
    if operations != [] {
      var outcomes := OneRowAtATime(rows, passed, size, operations);
      var next := if passed < |rows| then passed + 1 else passed;
      var rest := OneRowAtATime(rows, next, size, operations[1..]);
      EveryRowOnce(rows, next, size, operations[1..]);
      assert outcomes[1..] == rest;
      forall i | 0 <= i < |outcomes|
        ensures if i < |rows| - passed
                then outcomes[i] == if operations[i].Skip? then Skipped else Taken((passed + i) % size, rows[passed + i])
                else outcomes[i] == End
      {
        if i > 0 {
          assert outcomes[i] == rest[i - 1] && operations[i] == operations[1..][i - 1];
          assert passed < |rows| ==> next + (i - 1) == passed + i;
        }
      }
    }
  }

  lemma FirstSuccess(outcomes: seq<Outcome>, i: nat)
    requires i < |outcomes|
    ensures Successes(outcomes[..i + 1]) == (if IsSuccess(outcomes[0]) then 1 else 0) + Successes(outcomes[1..][..i])
  {
    assert outcomes[..i + 1][1..] == outcomes[1..][..i];
  }

  lemma RestIsOneRow(rows: seq<Row>, start: nat, size: nat, operations: seq<Operation>, outcomes: seq<Outcome>)
    requires size >= 1 && |operations| == |outcomes| > 0 && AreOneRow(rows, start, size, operations, outcomes)
    requires !outcomes[0].Failed?
    ensures outcomes[0] == OneRow(rows, start, size, operations[0])
    ensures AreOneRow(rows, if start < |rows| then start + 1 else start, size, operations[1..], outcomes[1..])
  {
    NoOutcomes();
    assert outcomes[..0] == [];
    assert outcomes[0] == OneRow(rows, start, size, operations[0]);
    assert IsSuccess(outcomes[0]) <==> start < |rows|;
    hide OneRow, Successes, IsSuccess;
    var rest := outcomes[1..];
    var next := if start < |rows| then start + 1 else start;
    forall i | 0 <= i < |rest|
      ensures rest[i].Failed? || rest[i] == OneRow(rows, next + Successes(rest[..i]), size, operations[1..][i])
    {
      FirstSuccess(outcomes, i);
      assert rest[i] == outcomes[i + 1] && operations[1..][i] == operations[i + 1];
    }
  }

  /** When no call fails, that is a run of the cursor that holds one row at a time. */
  lemma {:induction false} WithoutFailures(rows: seq<Row>, start: nat, size: nat, operations: seq<Operation>,
                                          outcomes: seq<Outcome>)
    requires size >= 1 && |operations| == |outcomes| && AreOneRow(rows, start, size, operations, outcomes)
    requires Failed !in outcomes
    ensures outcomes == OneRowAtATime(rows, start, size, operations)
    decreases |operations|
  {
    hide AreOneRow, OneRow;
    if operations != [] {
      RestIsOneRow(rows, start, size, operations, outcomes);
      WithoutFailures(rows, if start < |rows| then start + 1 else start, size, operations[1..], outcomes[1..]);
      assert outcomes == [outcomes[0]] + outcomes[1..];
    }
  }
}
