/** The life of the column buffers in src/connections/db2.cpp, over prepare, execute and close. */
module Db2Buffers {

  type Block = nat

  /** The blocks that new[] gave out and delete[] hasn't taken back. */
  class Heap {
    var live: multiset<Block>
    var next: Block

    ghost predicate Valid()
      reads this
    {
      forall b :: b in live ==> b < next && live[b] == 1
    }

    constructor ()
      ensures Valid() && live == multiset{}
    {
      live, next := multiset{}, 0;
    }

    /** What is live is no older than a block. */
    ghost predicate AllSince(start: Block)
      reads this
    {
      start <= next && forall b :: b in live ==> start <= b
    }

    method New(ghost start: Block) returns (b: Block)
      requires Valid() && AllSince(start)
      modifies this
      ensures Valid() && AllSince(start) && b == old(next) == next - 1 && live == old(live) + multiset{b}
    {
      b := next;
      live, next := live + multiset{b}, next + 1;
    }

    /** What isn't live can't be freed. */
    method Delete(b: Block, ghost rest: multiset<Block>)
      requires Valid() && live == And(rest, b)
      modifies this
      ensures Valid() && live == rest && next == old(next)
    {
      assert b in live;
      live := live - multiset{b};
    }
  }

  // ------------------------------------------------------------ DB2

  datatype Kind = Clob | Blob | Other

  datatype ColumnInfo = ColumnInfo(name: string, size: int, kind: Kind, precision: int, scale: int,
                                   nullable: bool, unsignednumber: bool, autoincrement: bool, table: string)

  datatype Binding = Binding(kind: Kind, buffer: Block, indicator: Block)

  /** A statement handle. What it is prepared with stays described the same way until it is prepared
      again; any call may fail. */
  class Statement {
    var description: seq<ColumnInfo>
    var bindings: map<nat, Binding>

    constructor ()
      ensures bindings == map[]
    {
      description, bindings := [], map[];
    }

    method Prepare(description: seq<ColumnInfo>) returns (ok: bool)
      modifies this`description
      ensures ok ==> this.description == description
    {
      ok := *;
      this.description := description;
    }

    method Call() returns (ok: bool) {
      ok := *;
    }

    method NumResultCols() returns (ok: bool, ncols: nat)
      ensures ok ==> ncols == |description|
    {
      ok, ncols := *, |description|;
    }

    /** Any one attribute can be taken from the information. */
    method ColAttribute(i: nat) returns (ok: bool, info: ColumnInfo)
      requires i < |description|
      ensures ok ==> info == description[i]
    {
      ok, info := *, description[i];
    }

    method BindCol(i: nat, binding: Binding) returns (ok: bool)
      modifies this`bindings
      ensures bindings == if ok then old(bindings)[i := binding] else old(bindings)
    {
      ok := *;
      if ok {
        bindings := bindings[i := binding];
      }
    }
  }

  // ------------------------------------------------------------ the buffers

  /** The blocks of one column. */
  datatype ColumnBuffers = ColumnBuffers(name: Block, field: Block, loblocator: Block, loblength: Block,
                                         lobcharposition: Block, lobnextoffset: Block, indicator: Block)

  /** The blocks that hold a pointer, a status or a description for each column or row. */
  datatype Arrays = Arrays(field: Block, loblocator: Block, loblength: Block, lobcharposition: Block,
                           lobnextoffset: Block, indicator: Block, rowstat: Block, column: Block)

  /** These blocks and one more. */
  function And(rest: multiset<Block>, b: Block): multiset<Block> {
    rest + multiset{b}
  }

  function AndColumn(rest: multiset<Block>, c: ColumnBuffers): multiset<Block> {
    And(And(And(And(And(And(And(rest, c.indicator), c.lobnextoffset), c.lobcharposition), c.loblength),
                    c.loblocator), c.field), c.name)
  }

  function AndColumns(rest: multiset<Block>, columns: seq<ColumnBuffers>): multiset<Block> {
    if columns == [] then rest
    else AndColumn(AndColumns(rest, columns[1..]), columns[0])
  }

  function AndArrays(rest: multiset<Block>, a: Arrays): multiset<Block> {
    And(And(And(And(And(And(And(And(rest, a.rowstat), a.indicator), a.lobnextoffset), a.lobcharposition),
                        a.loblength), a.loblocator), a.field), a.column)
  }

  method AllocateArrays(heap: Heap, ghost start: Block) returns (a: Arrays)
    requires heap.Valid() && heap.AllSince(start)
    modifies heap
    ensures heap.Valid() && heap.live == AndArrays(old(heap.live), a)
    ensures heap.AllSince(start)
  {
    hide Heap.AllSince;
    var field := heap.New(start);
    var loblocator := heap.New(start);
    var loblength := heap.New(start);
    var lobcharposition := heap.New(start);
    var lobnextoffset := heap.New(start);
    var indicator := heap.New(start);
    var rowstat := heap.New(start);
    var column := heap.New(start);
    a := Arrays(field, loblocator, loblength, lobcharposition, lobnextoffset, indicator, rowstat, column);
  }

  method AllocateColumn(heap: Heap, ghost start: Block) returns (c: ColumnBuffers)
    requires heap.Valid() && heap.AllSince(start)
    modifies heap
    ensures heap.Valid() && heap.live == AndColumn(old(heap.live), c)
    ensures heap.AllSince(start)
  {
    hide Heap.AllSince;
    var name := heap.New(start);
    var field := heap.New(start);
    var loblocator := heap.New(start);
    var loblength := heap.New(start);
    var lobcharposition := heap.New(start);
    var lobnextoffset := heap.New(start);
    var indicator := heap.New(start);
    c := ColumnBuffers(name, field, loblocator, loblength, lobcharposition, lobnextoffset, indicator);
  }

  method DeallocateColumn(heap: Heap, c: ColumnBuffers, ghost rest: multiset<Block>)
    requires heap.Valid() && heap.live == AndColumn(rest, c)
    modifies heap
    ensures heap.Valid() && heap.live == rest && heap.next == old(heap.next)
  {
    hide And, Heap.Valid;
    ghost var r1 := And(rest, c.indicator);
    ghost var r2 := And(r1, c.lobnextoffset);
    ghost var r3 := And(r2, c.lobcharposition);
    ghost var r4 := And(r3, c.loblength);
    ghost var r5 := And(r4, c.loblocator);
    ghost var r6 := And(r5, c.field);
    heap.Delete(c.name, r6);
    heap.Delete(c.field, r5);
    heap.Delete(c.loblocator, r4);
    heap.Delete(c.loblength, r3);
    heap.Delete(c.lobcharposition, r2);
    heap.Delete(c.lobnextoffset, r1);
    heap.Delete(c.indicator, rest);
  }

  method DeallocateArrays(heap: Heap, a: Arrays)
    requires heap.Valid() && heap.live == AndArrays(multiset{}, a)
    modifies heap
    ensures heap.Valid() && heap.live == multiset{} && heap.next == old(heap.next)
  {
    hide And, Heap.Valid;
    ghost var r1 := And(multiset{}, a.rowstat);
    ghost var r2 := And(r1, a.indicator);
    ghost var r3 := And(r2, a.lobnextoffset);
    ghost var r4 := And(r3, a.lobcharposition);
    ghost var r5 := And(r4, a.loblength);
    ghost var r6 := And(r5, a.loblocator);
    ghost var r7 := And(r6, a.field);
    heap.Delete(a.column, r7);
    heap.Delete(a.field, r6);
    heap.Delete(a.loblocator, r5);
    heap.Delete(a.loblength, r4);
    heap.Delete(a.lobcharposition, r3);
    heap.Delete(a.lobnextoffset, r2);
    heap.Delete(a.indicator, r1);
    heap.Delete(a.rowstat, multiset{});
  }

  lemma AndSum(a: multiset<Block>, b: multiset<Block>, c: Block)
    ensures And(a + b, c) == a + And(b, c)
  {
  }

  lemma AndColumnSum(rest: multiset<Block>, c: ColumnBuffers)
    ensures AndColumn(rest, c) == rest + AndColumn(multiset{}, c)
  {
    var r1 := And(multiset{}, c.indicator);
    var r2 := And(r1, c.lobnextoffset);
    var r3 := And(r2, c.lobcharposition);
    var r4 := And(r3, c.loblength);
    var r5 := And(r4, c.loblocator);
    var r6 := And(r5, c.field);
    assert rest + multiset{} == rest;
    AndSum(rest, multiset{}, c.indicator);
    AndSum(rest, r1, c.lobnextoffset);
    AndSum(rest, r2, c.lobcharposition);
    AndSum(rest, r3, c.loblength);
    AndSum(rest, r4, c.loblocator);
    AndSum(rest, r5, c.field);
    AndSum(rest, r6, c.name);
    hide And;
  }

  lemma AndColumnsSwap(rest: multiset<Block>, c: ColumnBuffers, d: ColumnBuffers)
    ensures AndColumn(AndColumn(rest, c), d) == AndColumn(AndColumn(rest, d), c)
  {
    hide AndColumn;
    AndColumnSum(rest, c);
    AndColumnSum(rest, d);
    AndColumnSum(AndColumn(rest, c), d);
    AndColumnSum(AndColumn(rest, d), c);
  }

  lemma {:induction false} OneMoreColumn(rest: multiset<Block>, columns: seq<ColumnBuffers>, c: ColumnBuffers)
    ensures AndColumns(rest, columns + [c]) == AndColumn(AndColumns(rest, columns), c)
  {
    hide AndColumn;
    if columns == [] {
      assert [c][1..] == [];
      assert columns + [c] == [c];
    } else {
      OneMoreColumn(rest, columns[1..], c);
      assert (columns + [c])[1..] == columns[1..] + [c];
      AndColumnsSwap(AndColumns(rest, columns[1..]), c, columns[0]);
    }
  }

  function Owned(arrays: Arrays, columns: seq<ColumnBuffers>): multiset<Block> {
    AndColumns(AndArrays(multiset{}, arrays), columns)
  }

  method AllocateBlocks(heap: Heap, count: nat) returns (arrays: Arrays, columns: seq<ColumnBuffers>)
    requires heap.Valid() && heap.live == multiset{}
    modifies heap
    ensures heap.Valid() && heap.live == Owned(arrays, columns) && |columns| == count
    ensures heap.AllSince(old(heap.next))
  {
    hide AndArrays, AndColumn;
    columns := [];
    ghost var start := heap.next;
    arrays := AllocateArrays(heap, start);
    while |columns| < count
      invariant |columns| <= count
      invariant heap.Valid() && heap.live == AndColumns(AndArrays(multiset{}, arrays), columns)
      invariant heap.AllSince(start)
    {
      var c := AllocateColumn(heap, start);
      OneMoreColumn(AndArrays(multiset{}, arrays), columns, c);
      columns := columns + [c];
    }
  }

  method DeallocateBlocks(heap: Heap, arrays: Arrays, columns: seq<ColumnBuffers>)
    requires heap.Valid() && heap.live == Owned(arrays, columns)
    modifies heap
    ensures heap.Valid() && heap.live == multiset{} && heap.next == old(heap.next)
  {
    hide AndArrays, AndColumn;
    var i := 0;
    assert columns[0..] == columns;
    while i < |columns|
      invariant i <= |columns| && heap.next == old(heap.next)
      invariant heap.Valid() && heap.live == AndColumns(AndArrays(multiset{}, arrays), columns[i..])
    {
      assert columns[i..][1..] == columns[i + 1..];
      DeallocateColumn(heap, columns[i], AndColumns(AndArrays(multiset{}, arrays), columns[i + 1..]));
      i := i + 1;
    }
    assert columns[i..] == [];
    DeallocateArrays(heap, arrays);
  }

  // ------------------------------------------------------------ the cursor

  /** Where a column of a kind is bound. */
  function BindingFor(kind: Kind, c: ColumnBuffers): Binding {
    match kind
    case Clob => Binding(Clob, c.loblocator, c.indicator)
    case Blob => Binding(Blob, c.loblocator, c.indicator)
    case Other => Binding(Other, c.field, c.indicator)
  }

  /** There is room for so many columns of the statement, and, if they were asked for, their
      descriptions are there. */
  predicate Describes(columncount: nat, column: seq<ColumnInfo>, description: seq<ColumnInfo>, count: nat, sent: bool)
    requires count <= |description|
  {
    && count <= columncount
    && (sent ==> count <= |column| && forall i :: 0 <= i < count ==> column[i] == description[i])
  }

  /** So many columns are bound to their own buffers, as their kinds need. */
  predicate AreBound(bindings: map<nat, Binding>, column: seq<ColumnInfo>, columns: seq<ColumnBuffers>, count: nat) {
    && count <= |column| && count <= |columns|
    && forall i :: 0 <= i < count ==> i in bindings && bindings[i] == BindingFor(column[i].kind, columns[i])
  }

  /** An entry that was made with these buffers of a column. */
  predicate IsOwnEntry(b: Binding, c: ColumnBuffers) {
    (b.buffer == c.field || b.buffer == c.loblocator) && b.indicator == c.indicator
  }

  /** Entry i was made with the buffers that there are. */
  predicate IsCurrent(bindings: map<nat, Binding>, columncount: nat, columns: seq<ColumnBuffers>, i: nat)
    requires i in bindings
  {
    i < columncount && i < |columns| && IsOwnEntry(bindings[i], columns[i])
  }

  /** Every entry was made with the buffers that there are, or names blocks that have been freed, which there
      are none of if the number of columns is fixed. */
  predicate AreEntries(bindings: map<nat, Binding>, columncount: nat, columns: seq<ColumnBuffers>, fixed: bool,
                       live: multiset<Block>, next: Block)
  {
    forall i :: i in bindings ==>
      && bindings[i].buffer < next && bindings[i].indicator < next
      && (IsCurrent(bindings, columncount, columns, i)
          || (!fixed && bindings[i].buffer !in live && bindings[i].indicator !in live))
  }

  class Cursor {
    const heap: Heap
    const stmt: Statement
    const maxcolumncount: nat
    const sendcolumninfo: bool
    var ncols: nat
    var columncount: nat
    var arrays: Arrays
    var columns: seq<ColumnBuffers>
    var column: seq<ColumnInfo>
    var columninfoisvalidafterprepare: bool
    /** Whether the last prepare succeeded. */
    ghost var prepared: bool
    /** Whether an execute succeeded, and nothing happened since. */
    ghost var bound: bool

    /** The buffers are live iff there are columns, and nothing else is. */
    ghost predicate HoldsBuffers()
      reads this`columncount, this`columns, this`column, this`arrays, heap
    {
      && heap.Valid()
      && (columncount == 0 ==> heap.live == multiset{})
      && (columncount > 0 ==>
           |columns| == columncount == |column|
           && heap.live == Owned(arrays, columns))
    }

    /** The number of columns that the statement's result sets are taken to have. */
    ghost function Limited(): (r: nat)
      reads stmt`description
      ensures r <= |stmt.description|
    {
      if 0 < maxcolumncount < |stmt.description| then maxcolumncount else |stmt.description|
    }

    ghost predicate Described()
      reads this`columncount, this`column, stmt`description
    {
      && Describes(columncount, column, stmt.description, Limited(), sendcolumninfo)
      && (maxcolumncount == 0 ==> columncount == Limited())
    }

    ghost predicate Bound()
      reads this`ncols, this`columncount, this`columns, this`column, stmt
    {
      ncols == Limited() && Described() && AreBound(stmt.bindings, column, columns, ncols)
    }

    /** What is known of every entry of the statement's bindings. */
    ghost predicate KnowsEntries()
      reads this`columncount, this`columns, heap, stmt`bindings
    {
      AreEntries(stmt.bindings, columncount, columns, maxcolumncount > 0, heap.live, heap.next)
    }

    ghost predicate Valid()
      reads this, heap, stmt
    {
      && HoldsBuffers() && KnowsEntries()
      && (maxcolumncount > 0 ==> columncount == maxcolumncount)
      && (prepared && columninfoisvalidafterprepare ==> Described())
      && (bound ==> prepared && Bound())
    }

    constructor (stmt: Statement, maxcolumncount: nat, sendcolumninfo: bool)
      requires stmt.bindings == map[]
      ensures Valid() && !prepared && !bound && fresh(heap)
      ensures this.stmt == stmt && this.maxcolumncount == maxcolumncount && this.sendcolumninfo == sendcolumninfo
    {
      hide Owned, BindingFor;
      this.heap := new Heap();
      this.stmt, this.maxcolumncount, this.sendcolumninfo := stmt, maxcolumncount, sendcolumninfo;
      ncols, columncount, columninfoisvalidafterprepare, prepared, bound := 0, 0, true, false, false;
      columns, column := [], [];
      new;
      AllocateResultSetBuffers(maxcolumncount);
    }

    /** The destructor: nothing is left. */
    method Destroy()
      requires Valid()
      modifies this, heap
      ensures heap.live == multiset{}
    {
      hide Owned;
      DeallocateResultSetBuffers();
    }

    method AllocateResultSetBuffers(count: nat)
      requires heap.Valid() && heap.live == multiset{}
      modifies this`columncount, this`arrays, this`columns, this`column, heap
      ensures HoldsBuffers() && columncount == count
      ensures heap.AllSince(old(heap.next))
    {
      hide Owned;
      columncount := count;
      if count == 0 {
        columns, column := [], [];
      } else {
        arrays, columns := AllocateBlocks(heap, count);
        var unset: ColumnInfo := *;
        column := seq(count, _ => unset);
      }
    }

    method DeallocateResultSetBuffers()
      requires HoldsBuffers()
      modifies this`columncount, heap
      ensures HoldsBuffers() && columncount == 0 && heap.next == old(heap.next)
      ensures heap.live == multiset{}
    {
      hide Owned;
      if columncount > 0 {
        DeallocateBlocks(heap, arrays, columns);
        columncount := 0;
      }
    }

    method PrepareQuery(description: seq<ColumnInfo>, named: bool) returns (ok: bool)
      requires Valid()
      modifies this, heap, stmt
      ensures Valid() && prepared == ok && !bound
      ensures ok ==> stmt.description == description
      ensures ok ==> ncols == if columninfoisvalidafterprepare then Limited() else 0
    {
      hide Owned, Describes, AreBound, AreEntries, HoldsBuffers, KnowsEntries;
      ncols, columninfoisvalidafterprepare := 0, true;
      prepared, bound := false, false;
      ok := PrepareStatement(description, named);
      if !ok {
        return;
      }
      ok := HandleColumns(true, false);
      prepared := ok;
    }

    /** SQLPrepare(), and SQLSetCursorName() if the cursor has a name. */
    method PrepareStatement(description: seq<ColumnInfo>, named: bool) returns (ok: bool)
      modifies stmt`description
      ensures ok ==> stmt.description == description
    {
      ok := stmt.Prepare(description);
      if ok && named {
        ok := stmt.Call();
      }
    }

    method ExecuteQuery() returns (ok: bool)
      requires Valid() && prepared
      modifies this, heap, stmt
      ensures Valid() && prepared && bound == ok
      ensures stmt.description == old(stmt.description)
    {
      hide Owned, Describes, AreBound, AreEntries, HoldsBuffers, KnowsEntries;
      bound := false;
      ok := stmt.Call();
      if !ok {
        return;
      }
      ok := HandleColumns(!columninfoisvalidafterprepare, true);
      if !ok {
        return;
      }
      ok := stmt.Call();
      bound := ok;
    }

    method CloseResultSet()
      requires Valid()
      modifies this, heap
      ensures Valid() && prepared == old(prepared) && !bound && ncols == 0
      ensures maxcolumncount == 0 ==> columncount == 0
    {
      hide Owned, BindingFor;
      bound := false;
      if maxcolumncount == 0 {
        DeallocateResultSetBuffers();
      }
      columninfoisvalidafterprepare := false;
      ncols := 0;
    }

    method NoRowsToReturn() returns (none: bool)
      requires Valid() && bound
      ensures none <==> |stmt.description| == 0
    {
      hide Owned, BindingFor;
      return ncols == 0;
    }

    method HandleColumns(getcolumninfo: bool, bindcolumns: bool) returns (ok: bool)
      requires HoldsBuffers() && KnowsEntries() && !bound
      requires maxcolumncount > 0 ==> columncount == maxcolumncount
      requires !getcolumninfo ==> Described()
      requires !bindcolumns ==> getcolumninfo && columninfoisvalidafterprepare
      modifies this`ncols, this`columncount, this`arrays, this`columns, this`column,
               this`columninfoisvalidafterprepare, heap, stmt`bindings
      ensures HoldsBuffers() && KnowsEntries()
      ensures maxcolumncount > 0 ==> columncount == maxcolumncount
      ensures bindcolumns || !ok ==> columninfoisvalidafterprepare == old(columninfoisvalidafterprepare)
      ensures ok && bindcolumns ==> Bound()
      ensures ok && !bindcolumns ==>
        if columninfoisvalidafterprepare then Described() && ncols == Limited() else ncols == 0
      ensures !getcolumninfo ==> Described()
    {
      hide Owned, BindingFor, AreEntries, AreBound, Describes;
      var n;
      ok, n := stmt.NumResultCols();
      if !ok {
        if !bindcolumns {
          columninfoisvalidafterprepare := false;
          ncols := 0;
          return true;
        }
        return false;
      }
      ncols := n;
      if maxcolumncount > 0 && ncols > maxcolumncount {
        ncols := maxcolumncount;
      }
      if getcolumninfo {
        ok := GetColumnInfo();
        if !ok {
          return;
        }
      }
      if bindcolumns {
        ok := BindColumns();
        return;
      }
      return true;
    }

    /** The part of handleColumns() that makes room for the columns, if there's no fixed number of them,
        and describes them. */
    method GetColumnInfo() returns (ok: bool)
      requires HoldsBuffers() && KnowsEntries() && ncols == Limited()
      requires maxcolumncount > 0 ==> columncount == maxcolumncount
      modifies this`columncount, this`arrays, this`columns, this`column, heap
      ensures HoldsBuffers() && KnowsEntries()
      ensures maxcolumncount > 0 ==> columncount == maxcolumncount
      ensures ok ==> Described()
    {
      hide Owned, AreEntries;
      if maxcolumncount == 0 {
        ghost var columncount', columns', live, next := columncount, columns, heap.live, heap.next;
        DeallocateResultSetBuffers();
        AllocateResultSetBuffers(ncols);
        EntriesAreForgotten(stmt.bindings, columncount', columns', live, next, columncount, columns, heap.live, heap.next);
        ok := stmt.Call();
        if !ok {
          return;
        }
      }
      var i := 0;
      while i < ncols
        invariant i <= ncols == Limited() <= columncount
        invariant HoldsBuffers() && KnowsEntries()
        invariant if maxcolumncount > 0 then columncount == maxcolumncount else columncount == ncols
        invariant sendcolumninfo ==> forall j :: 0 <= j < i ==> column[j] == stmt.description[j]
      {
        if sendcolumninfo {
          ok := DescribeColumn(i);
          if !ok {
            return;
          }
        }
        i := i + 1;
      }
      return true;
    }

    /** Asks for one attribute of a column after another. */
    method DescribeColumn(i: nat) returns (ok: bool)
      requires i < |column| && i < |stmt.description|
      modifies this`column
      ensures |column| == |old(column)| && forall j :: 0 <= j < |column| && j != i ==> column[j] == old(column)[j]
      ensures ok ==> column[i] == stmt.description[i]
    {
      var info: ColumnInfo;
      ok, info := stmt.ColAttribute(i);
      if !ok {
        return;
      }
      column := column[i := column[i].(name := info.name)];
      ok, info := stmt.ColAttribute(i);
      if !ok {
        return;
      }
      column := column[i := column[i].(size := info.size)];
      ok, info := stmt.ColAttribute(i);
      if !ok {
        return;
      }
      column := column[i := column[i].(kind := info.kind)];
      ok, info := stmt.ColAttribute(i);
      if !ok {
        return;
      }
      column := column[i := column[i].(precision := info.precision)];
      ok, info := stmt.ColAttribute(i);
      if !ok {
        return;
      }
      column := column[i := column[i].(scale := info.scale)];
      ok, info := stmt.ColAttribute(i);
      if !ok {
        return;
      }
      column := column[i := column[i].(nullable := info.nullable)];
      ok, info := stmt.ColAttribute(i);
      if !ok {
        return;
      }
      column := column[i := column[i].(unsignednumber := info.unsignednumber)];
      ok, info := stmt.ColAttribute(i);
      if !ok {
        return;
      }
      column := column[i := column[i].(autoincrement := info.autoincrement)];
      ok, info := stmt.ColAttribute(i);
      if !ok {
        return;
      }
      column := column[i := column[i].(table := info.table)];
    }

    /** Binds the columns to LOB locators or to buffers. */
    method BindColumns() returns (ok: bool)
      requires HoldsBuffers() && KnowsEntries() && Described() && ncols == Limited()
      modifies stmt`bindings
      ensures ok ==> Bound()
      ensures KnowsEntries()
    {
      hide Owned, BindingFor, AreEntries;
      var i := 0;
      while i < ncols
        invariant i <= ncols == Limited() <= columncount
        invariant columncount > 0 ==> |columns| == columncount == |column|
        invariant KnowsEntries()
        invariant forall j :: 0 <= j < i ==>
          j in stmt.bindings && stmt.bindings[j] == BindingFor(column[j].kind, columns[j])
      {
        OwnEntryIsKnown(this, i);
        ok := stmt.BindCol(i, BindingFor(column[i].kind, columns[i]));
        if !ok {
          return;
        }
        i := i + 1;
      }
      return true;
    }
  }

  // ------------------------------------------------------------ runs

  lemma {:induction false} ColumnIsOwned(rest: multiset<Block>, columns: seq<ColumnBuffers>, i: nat, b: Block)
    requires i < |columns| && b in AndColumn(multiset{}, columns[i])
    ensures b in AndColumns(rest, columns)
  {
    hide AndColumn;
    if i > 0 {
      ColumnIsOwned(rest, columns[1..], i - 1, b);
    }
    AndColumnSum(AndColumns(rest, columns[1..]), columns[0]);
  }

  lemma BindingIsOwned(kind: Kind, c: ColumnBuffers)
    ensures BindingFor(kind, c).buffer in AndColumn(multiset{}, c)
    ensures BindingFor(kind, c).indicator in AndColumn(multiset{}, c)
  {
  }

  /** Once other buffers have been allocated, every entry names blocks that have been freed. */
  lemma EntriesAreForgotten(bindings: map<nat, Binding>, columncount: nat, columns: seq<ColumnBuffers>,
                            live: multiset<Block>, next: Block, columncount': nat, columns': seq<ColumnBuffers>,
                            live': multiset<Block>, next': Block)
    requires AreEntries(bindings, columncount, columns, false, live, next)
    requires next <= next' && forall b :: b in live' ==> next <= b
    ensures AreEntries(bindings, columncount', columns', false, live', next')
  {
  }

  /** Binding a column to its own buffers keeps every entry known. */
  lemma OwnEntryIsKnown(cursor: Cursor, i: nat)
    requires cursor.HoldsBuffers() && cursor.KnowsEntries() && i < cursor.columncount
    ensures AreEntries(cursor.stmt.bindings[i := BindingFor(cursor.column[i].kind, cursor.columns[i])], cursor.columncount,
                       cursor.columns, cursor.maxcolumncount > 0, cursor.heap.live, cursor.heap.next)
  {
    hide AndColumns, AndArrays, AndColumn;
    var c := cursor.columns[i];
    var binding := BindingFor(cursor.column[i].kind, c);
    BindingIsOwned(cursor.column[i].kind, c);
    ColumnIsOwned(AndArrays(multiset{}, cursor.arrays), cursor.columns, i, binding.buffer);
    ColumnIsOwned(AndArrays(multiset{}, cursor.arrays), cursor.columns, i, binding.indicator);
  }

  /** A block that two columns had would be there twice. */
  lemma {:induction false} SharedIsTwice(rest: multiset<Block>, columns: seq<ColumnBuffers>, i: nat, j: nat, b: Block)
    requires i < j < |columns|
    requires b in AndColumn(multiset{}, columns[i]) && b in AndColumn(multiset{}, columns[j])
    ensures AndColumns(rest, columns)[b] >= 2
  {
    hide AndColumn;
    AndColumnSum(AndColumns(rest, columns[1..]), columns[0]);
    if i == 0 {
      ColumnIsOwned(rest, columns[1..], j - 1, b);
    } else {
      SharedIsTwice(rest, columns[1..], i - 1, j - 1, b);
    }
  }

  /** While a result set is open, and so the columns are bound, no two of them share a block. */
  lemma BoundToOwnBlocks(cursor: Cursor, i: nat, j: nat)
    requires cursor.HoldsBuffers() && cursor.Bound() && i < j < cursor.ncols
    ensures i in cursor.stmt.bindings && j in cursor.stmt.bindings
    ensures
      var a, b := cursor.stmt.bindings[i], cursor.stmt.bindings[j];
      a.buffer != b.buffer && a.indicator != b.indicator && a.buffer != b.indicator && a.indicator != b.buffer
  {
    hide AndColumns, AndArrays, AndColumn;
    var a, b := cursor.stmt.bindings[i], cursor.stmt.bindings[j];
    BindingIsOwned(cursor.column[i].kind, cursor.columns[i]);
    BindingIsOwned(cursor.column[j].kind, cursor.columns[j]);
    var rest, columns := AndArrays(multiset{}, cursor.arrays), cursor.columns;
    forall x | x in AndColumn(multiset{}, columns[i]) && x in AndColumn(multiset{}, columns[j]) ensures false {
      SharedIsTwice(rest, columns, i, j, x);
    }
  }

  /** While a result set is open, all of the statement's columns that there may be are bound, each to its own
      live blocks: one that column[] says is a LOB to its locators, any other to its field buffer.  If column
      information is sent, column[] describes the statement. */
  lemma BoundToLiveBlocks(cursor: Cursor, i: nat)
    requires cursor.HoldsBuffers() && cursor.Bound() && i < cursor.ncols
    ensures cursor.ncols <= cursor.columncount
    ensures cursor.ncols == if cursor.maxcolumncount == 0 || cursor.maxcolumncount > |cursor.stmt.description|
                            then |cursor.stmt.description| else cursor.maxcolumncount
    ensures i < |cursor.column| && i < |cursor.columns| && i in cursor.stmt.bindings
    ensures
      var binding, c := cursor.stmt.bindings[i], cursor.columns[i];
      && binding.kind == cursor.column[i].kind
      && binding.buffer == (if cursor.column[i].kind.Other? then c.field else c.loblocator)
      && binding.indicator == c.indicator
      && binding.buffer in cursor.heap.live && binding.indicator in cursor.heap.live
    ensures cursor.sendcolumninfo ==> cursor.column[i] == cursor.stmt.description[i]
  {
    hide AndColumns, AndArrays, AndColumn;
    var c := cursor.columns[i];
    BindingIsOwned(cursor.column[i].kind, c);
    var binding := cursor.stmt.bindings[i];
    ColumnIsOwned(AndArrays(multiset{}, cursor.arrays), cursor.columns, i, binding.buffer);
    ColumnIsOwned(AndArrays(multiset{}, cursor.arrays), cursor.columns, i, binding.indicator);
  }

  /** Whether an entry names live blocks can be told by whether it was made with the buffers that there are. */
  lemma EntryIsLiveIff(cursor: Cursor, i: nat)
    requires cursor.Valid() && i in cursor.stmt.bindings
    ensures
      var binding := cursor.stmt.bindings[i];
      && (binding.buffer in cursor.heap.live <==> IsCurrent(cursor.stmt.bindings, cursor.columncount, cursor.columns, i))
      && (binding.indicator in cursor.heap.live <==> binding.buffer in cursor.heap.live)
  {
    hide AndColumns, AndArrays, AndColumn;
    var binding := cursor.stmt.bindings[i];
    if IsCurrent(cursor.stmt.bindings, cursor.columncount, cursor.columns, i) {
      var c := cursor.columns[i];
      var kind := if binding.buffer == c.field then Other else Clob;
      BindingIsOwned(kind, c);
      ColumnIsOwned(AndArrays(multiset{}, cursor.arrays), cursor.columns, i, binding.buffer);
      ColumnIsOwned(AndArrays(multiset{}, cursor.arrays), cursor.columns, i, binding.indicator);
    }
  }

  predicate AllLive(bindings: map<nat, Binding>, live: multiset<Block>) {
    forall i :: i in bindings ==> bindings[i].buffer in live && bindings[i].indicator in live
  }

  /** While a result set is open, every entry names live blocks iff the number of columns is fixed, or no
      entry is left from a statement with more columns. */
  lemma OpenEntriesAreLiveIff(cursor: Cursor)
    requires cursor.Valid() && cursor.bound
    ensures AllLive(cursor.stmt.bindings, cursor.heap.live)
       <==> cursor.maxcolumncount > 0 || forall i :: i in cursor.stmt.bindings ==> i < cursor.ncols
  {
    hide Owned, AreBound;
    forall i | i in cursor.stmt.bindings
      ensures cursor.stmt.bindings[i].buffer in cursor.heap.live
         <==> IsCurrent(cursor.stmt.bindings, cursor.columncount, cursor.columns, i)
      ensures cursor.stmt.bindings[i].indicator in cursor.heap.live <==> cursor.stmt.bindings[i].buffer in cursor.heap.live
      ensures i < cursor.ncols ==> IsCurrent(cursor.stmt.bindings, cursor.columncount, cursor.columns, i)
    {
      EntryIsLiveIff(cursor, i);
      if i < cursor.ncols {
        BoundIsCurrent(cursor, i);
      }
    }
  }

  lemma BoundIsCurrent(cursor: Cursor, i: nat)
    requires cursor.HoldsBuffers() && cursor.Bound() && i < cursor.ncols
    ensures i in cursor.stmt.bindings && IsCurrent(cursor.stmt.bindings, cursor.columncount, cursor.columns, i)
  {
    hide Owned;
  }

  /** Once a result set is closed, every entry names live blocks iff the number of columns is fixed, or there is
      no entry. */
  lemma ClosedEntriesAreLiveIff(cursor: Cursor)
    requires cursor.Valid() && (cursor.maxcolumncount == 0 ==> cursor.columncount == 0)
    ensures AllLive(cursor.stmt.bindings, cursor.heap.live)
       <==> cursor.maxcolumncount > 0 || cursor.stmt.bindings == map[]
  {
    hide Owned;
    forall i | i in cursor.stmt.bindings
      ensures cursor.stmt.bindings[i].buffer in cursor.heap.live
         <==> IsCurrent(cursor.stmt.bindings, cursor.columncount, cursor.columns, i)
      ensures cursor.stmt.bindings[i].indicator in cursor.heap.live <==> cursor.stmt.bindings[i].buffer in cursor.heap.live
    {
      EntryIsLiveIff(cursor, i);
    }
    if cursor.maxcolumncount == 0 && cursor.stmt.bindings != map[] {
      var i :| i in cursor.stmt.bindings;
      assert !IsCurrent(cursor.stmt.bindings, cursor.columncount, cursor.columns, i);
    }
  }

  datatype Operation = Prepare(description: seq<ColumnInfo>, named: bool) | Execute | Close

  /** The statement that was last asked for. */
  function LastDescription(operations: seq<Operation>): seq<ColumnInfo> {
    if operations == [] then []
    else
      var last := operations[|operations| - 1];
      if last.Prepare? then last.description else LastDescription(operations[..|operations| - 1])
  }

  /** Prepares, executes and closes in any order, but executes only what was prepared. Columns are bound
      iff the last operation was an execute that succeeded, and then the statement is the last one. */
  method Run(cursor: Cursor, operations: seq<Operation>) returns (outcomes: seq<bool>)
    requires cursor.Valid() && !cursor.prepared && !cursor.bound
    modifies cursor, cursor.heap, cursor.stmt
    ensures cursor.Valid() && |outcomes| == |operations|
    ensures cursor.prepared ==> cursor.stmt.description == LastDescription(operations)
    ensures cursor.bound <==> operations != [] && operations[|operations| - 1].Execute? && outcomes[|operations| - 1]
  {
    hide Cursor.Valid;
    outcomes := [];
    var prepared := false;
    while |outcomes| < |operations|
      invariant |outcomes| <= |operations| && cursor.Valid() && prepared == cursor.prepared
      invariant cursor.prepared ==> cursor.stmt.description == LastDescription(operations[..|outcomes|])
      invariant cursor.bound <==>
        outcomes != [] && operations[|outcomes| - 1].Execute? && outcomes[|outcomes| - 1]
    {
      var i := |outcomes|;
      LastDescriptionStep(operations, i);
      var ok := true;
      match operations[i] {
        case Prepare(description, named) =>
          ok := cursor.PrepareQuery(description, named);
          prepared := ok;
        case Execute =>
          BoundIsPrepared(cursor);
          ok := prepared;
          if prepared {
            ok := cursor.ExecuteQuery();
          }
        case Close =>
          cursor.CloseResultSet();
      }
      outcomes := outcomes + [ok];
    }
    assert operations[..|outcomes|] == operations;
  }

  lemma BoundIsPrepared(cursor: Cursor)
    requires cursor.Valid()
    ensures cursor.bound ==> cursor.prepared
  {
  }

  lemma LastDescriptionStep(operations: seq<Operation>, i: nat)
    requires i < |operations|
    ensures LastDescription(operations[..i + 1])
         == if operations[i].Prepare? then operations[i].description else LastDescription(operations[..i])
  {
    assert operations[..i + 1][..i] == operations[..i];
  }

  /** Whatever a cursor does, nothing is leaked. */
  method WholeLife(maxcolumncount: nat, sendcolumninfo: bool, operations: seq<Operation>)
      returns (left: multiset<Block>)
    ensures left == multiset{}
  {
    hide Cursor.Valid;
    var stmt := new Statement();
    var cursor := new Cursor(stmt, maxcolumncount, sendcolumninfo);
    var outcomes := Run(cursor, operations);
    cursor.Destroy();
    left := cursor.heap.live;
  }
}
