/**
 * The `retrieve` table of sales-order lines and the `/add_order` import in
 * server/API/retrieve.js: the uploaded sheet is an array of rows of cell
 * values; rows 0 to 2 carry the customer, the SO number and the date, and
 * every row from index 4 on is one order line.
 */
module Orders {
  import opened Wrappers
  import opened Strings

  /** A cell of the uploaded sheet or a column value, as JavaScript sees it:
      `Undefined` is a cell past the end of its row, `Null` an SQL NULL or a
      JSON null. */
  datatype Value = Text(text: string) | Number(number: int) | Null | Undefined

  /** One row of the `retrieve` table; `done` is the `status` column (0 when
      inserted, set to true once the line is retrieved). */
  datatype OrderLine = OrderLine(
    customer: Value, soNo: Value, date: Value,
    itemCode: string, itemDesc: Value, quantity: Value, uom: Value,
    done: bool)

  /** One confirmed quantity the station sends back (`dataSend` entry). */
  datatype Pick = Pick(itemCode: string, quantity: int)

  /** `row[c]`. */
  function CellAt(row: seq<Value>, c: nat): Value
  {
    if c < |row| then row[c] else Undefined
  }

  /** What a bound parameter stores and reads back: `undefined` binds as
      NULL. */
  function Stored(v: Value): Value
  {
    if v == Undefined then Null else v
  }

  /** `v.toString()`; `None` where JavaScript throws a TypeError. */
  function ToStringOf(v: Value): Option<string>
  {
    match v
    case Text(t) => Some(t)
    case Number(n) => Some(IntToString(n))
    case Null => None
    case Undefined => None
  }

  /** SQL `column = ?`: never true when either side is NULL. */
  predicate SqlEq(column: Value, param: Value)
  {
    column != Null && param != Null && param != Undefined && column == param
  }

  /** JavaScript `count >= q`, where an absent count is `undefined` (so
      never at least anything) and `q` is converted to a number. */
  predicate MeetsQuantity(count: Option<nat>, q: Value)
  {
    match count
    case None => false
    case Some(n) =>
      match q
      case Number(m) => n >= m
      case Null => true
      case Undefined => false
      case Text(t) => (match TextToNumber(t) case None => false case Some(m) => n >= m)
  }

  /** The three header values of an upload. */
  datatype Header = Header(customer: Value, soNo: Value, date: Value)

  datatype AddOutcome =
    | Uploaded       // every line inserted
    | AlreadyExists  // the SO number is already in the table; nothing inserted
    | Aborted        // a TypeError left the handler; lines inserted before it stay

  /** The item code cell of a line row, converted to a string. */
  function ItemCodeOf(row: seq<Value>): Option<string>
  {
    ToStringOf(CellAt(row, 1))
  }

  /** The row inserted for one sheet row: columns 1 to 4 are code,
      description, quantity and unit, and the status is 0. */
  function LineOf(h: Header, row: seq<Value>, code: string): OrderLine
  {
    OrderLine(Stored(h.customer), Stored(h.soNo), Stored(h.date),
              code, Stored(CellAt(row, 2)), Stored(CellAt(row, 3)), Stored(CellAt(row, 4)),
              false)
  }

  /** The inserts for the line rows, in order, up to the first row whose
      item code cannot be converted (`ok` is false then). */
  function InsertRows(h: Header, rows: seq<seq<Value>>): (r: (bool, seq<OrderLine>))
    ensures |r.1| <= |rows|
    ensures r.0 <==> |r.1| == |rows|
  {
    if rows == [] then (true, [])
    else
      match ItemCodeOf(rows[0])
      case None => (false, [])
      case Some(code) =>
        var rest := InsertRows(h, rows[1..]);
        (rest.0, [LineOf(h, rows[0], code)] + rest.1)
  }

  /** Each inserted line is the line of the row at its index, every row
      before the stop has an item code, and the import stops only at a row
      whose item code cell cannot be converted. */
  lemma {:induction false} InsertRowsSpec(h: Header, rows: seq<seq<Value>>)
    ensures var r := InsertRows(h, rows);
      && (forall i :: 0 <= i < |r.1| ==>
            ItemCodeOf(rows[i]).Some? && r.1[i] == LineOf(h, rows[i], ItemCodeOf(rows[i]).value))
      && (!r.0 ==> ItemCodeOf(rows[|r.1|]).None?)
  {
    if rows != [] && ItemCodeOf(rows[0]).Some? {
      InsertRowsSpec(h, rows[1..]);
      var r := InsertRows(h, rows);
      var rest := InsertRows(h, rows[1..]);
      assert r.1 == [LineOf(h, rows[0], ItemCodeOf(rows[0]).value)] + rest.1;
      forall i | 1 <= i < |r.1|
        ensures ItemCodeOf(rows[i]).Some? && r.1[i] == LineOf(h, rows[i], ItemCodeOf(rows[i]).value)
      {
        assert r.1[i] == rest.1[i - 1] && rows[i] == rows[1..][i - 1];
      }
      if !r.0 {
        assert rows[|r.1|] == rows[1..][|rest.1|];
      }
    }
  }

  /** Importing two runs of rows one after the other is importing them
      together: the second run is reached only if the first completes. */
  lemma {:induction false} InsertRowsAppend(h: Header, a: seq<seq<Value>>, b: seq<seq<Value>>)
    ensures InsertRows(h, a + b)
         == if InsertRows(h, a).0 then (InsertRows(h, b).0, InsertRows(h, a).1 + InsertRows(h, b).1)
            else InsertRows(h, a)
  {
    if a == [] {
      assert a + b == b;
      assert InsertRows(h, a) == (true, []);
      assert [] + InsertRows(h, b).1 == InsertRows(h, b).1;
    } else {
      var ab := a + b;
      assert ab[0] == a[0] && ab[1..] == a[1..] + b;
      match ItemCodeOf(a[0])
      case None =>
        assert InsertRows(h, ab) == (false, []);
      case Some(code) =>
        InsertRowsAppend(h, a[1..], b);
        var line := LineOf(h, a[0], code);
        var ra := InsertRows(h, a[1..]);
        var rab := InsertRows(h, a[1..] + b);
        assert InsertRows(h, a) == (ra.0, [line] + ra.1);
        assert InsertRows(h, ab) == (rab.0, [line] + rab.1);
        if ra.0 {
          assert [line] + (ra.1 + InsertRows(h, b).1) == ([line] + ra.1) + InsertRows(h, b).1;
        }
    }
  }

  /** The duplicate check: some stored SO number is `===` the uploaded one. */
  predicate IsDuplicate(table: seq<OrderLine>, soNo: Value)
  {
    exists i :: 0 <= i < |table| && table[i].soNo == soNo
  }

  /** `/add_order` on the table: the outcome and the table afterwards. Fewer
      than three rows make the header reads throw before anything is written. */
  function AddOrder(table: seq<OrderLine>, body: seq<seq<Value>>): (AddOutcome, seq<OrderLine>)
  {
    if |body| < 3 then (Aborted, table)
    else
      var h := Header(CellAt(body[0], 1), CellAt(body[1], 2), CellAt(body[2], 2));
      if IsDuplicate(table, h.soNo) then (AlreadyExists, table)
      else
        var ins := InsertRows(h, if |body| > 4 then body[4..] else []);
        (if ins.0 then Uploaded else Aborted, table + ins.1)
  }

  /** An upload whose SO number is already stored changes nothing. */
  lemma AddOrderDuplicate(table: seq<OrderLine>, body: seq<seq<Value>>)
    requires |body| >= 3 && IsDuplicate(table, CellAt(body[1], 2))
    ensures AddOrder(table, body) == (AlreadyExists, table)
  {
  }

  /** A fresh SO number appends one line per row from index 4 on, each with
      status 0 and the header's customer, SO number and date, as long as no
      item code cell is missing; the rows already there are untouched. */
  lemma AddOrderInserts(table: seq<OrderLine>, body: seq<seq<Value>>)
    requires |body| >= 3 && !IsDuplicate(table, CellAt(body[1], 2))
    requires forall i :: 4 <= i < |body| ==> ItemCodeOf(body[i]).Some?
    ensures var (outcome, after) := AddOrder(table, body);
      && outcome == Uploaded
      && |after| == |table| + (if |body| > 4 then |body| - 4 else 0)
      && after[..|table|] == table
      && forall i :: |table| <= i < |after| ==>
           var row := body[i - |table| + 4];
           && after[i].itemCode == ItemCodeOf(row).value
           && after[i].soNo == Stored(CellAt(body[1], 2))
           && after[i].customer == Stored(CellAt(body[0], 1))
           && after[i].date == Stored(CellAt(body[2], 2))
           && after[i].quantity == Stored(CellAt(row, 3))
           && !after[i].done
  {
    var rows := if |body| > 4 then body[4..] else [];
    var h := Header(CellAt(body[0], 1), CellAt(body[1], 2), CellAt(body[2], 2));
    var ins := InsertRows(h, rows);
    InsertRowsSpec(h, rows);
    assert forall j :: 0 <= j < |rows| ==> rows[j] == body[j + 4];
    assert ins.0;
    var after := table + ins.1;
    assert after[..|table|] == table;
    forall i | |table| <= i < |after|
      ensures after[i] == LineOf(h, body[i - |table| + 4], ItemCodeOf(body[i - |table| + 4]).value)
    {
      assert after[i] == ins.1[i - |table|];
      assert rows[i - |table|] == body[i - |table| + 4];
    }
  }

  /** A row without an item code ends the import: the lines of the rows
      before it stay inserted, no later row is. */
  lemma AddOrderAbortsAtMissingCode(table: seq<OrderLine>, body: seq<seq<Value>>, k: nat)
    requires |body| >= 3 && !IsDuplicate(table, CellAt(body[1], 2))
    requires 4 <= k < |body| && ItemCodeOf(body[k]).None?
    requires forall i :: 4 <= i < k ==> ItemCodeOf(body[i]).Some?
    ensures AddOrder(table, body).0 == Aborted
    ensures |AddOrder(table, body).1| == |table| + k - 4
  {
    var rows := body[4..];
    var h := Header(CellAt(body[0], 1), CellAt(body[1], 2), CellAt(body[2], 2));
    var ins := InsertRows(h, rows);
    InsertRowsSpec(h, rows);
    assert rows[k - 4] == body[k];
  }

  /** An import never rewrites or drops an existing line. */
  lemma AddOrderKeepsTable(table: seq<OrderLine>, body: seq<seq<Value>>)
    ensures |AddOrder(table, body).1| >= |table|
    ensures AddOrder(table, body).1[..|table|] == table
  {
    var after := AddOrder(table, body).1;
    if |body| >= 3 {
      var h := Header(CellAt(body[0], 1), CellAt(body[1], 2), CellAt(body[2], 2));
      if !IsDuplicate(table, h.soNo) {
        var ins := InsertRows(h, if |body| > 4 then body[4..] else []);
        assert (table + ins.1)[..|table|] == table;
      }
    }
  }
}
