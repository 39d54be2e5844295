/**
 * The two endpoints of server/API/retrieve.js that write to the database:
 * `/add_order` inserts the lines of an uploaded sales order into the
 * `retrieve` table, and `/update_retrieve` takes the picked quantities out
 * of a pigeonhole and marks the picked order lines as retrieved.
 */
module Database {
  import opened Wrappers
  import opened Strings
  import opened Pigeonhole
  import opened Orders

  // ----- /update_retrieve as a function of the tables -----

  /** `SELECT ... FROM retrieve WHERE so_no = ? AND item_code = ?` finds a
      row, whatever its status. */
  predicate HasLine(orders: seq<OrderLine>, so: Value, code: string)
  {
    exists i :: 0 <= i < |orders| && SqlEq(orders[i].soNo, so) && orders[i].itemCode == code
  }

  /** The line the `UPDATE retrieve SET status = true ... WHERE item_code = ?
      AND so_no = ?` statement rewrites. */
  predicate Marks(line: OrderLine, code: string, so: Value)
  {
    line.itemCode == code && SqlEq(line.soNo, so)
  }

  /** That `UPDATE`: every line of the order with the code is marked
      retrieved, the others are left as they are. */
  function MarkDone(orders: seq<OrderLine>, code: string, so: Value): (r: seq<OrderLine>)
    ensures |r| == |orders|
    ensures forall i :: 0 <= i < |orders| ==>
              r[i] == if Marks(orders[i], code, so) then orders[i].(done := true) else orders[i]
  {
    if orders == [] then []
    else
      var p := orders[..|orders| - 1];
      var last := orders[|orders| - 1];
      MarkDone(p, code, so) + [if Marks(last, code, so) then last.(done := true) else last]
  }

  /** Whether one pick is applied: the order has a line with its code and
      the pigeonhole exists with a non-empty (truthy) `item_code`. */
  predicate Applies(orders: seq<OrderLine>, cells: map<string, string>, pick: Pick, so: Value, id: string)
  {
    HasLine(orders, so, pick.itemCode) && id in cells && cells[id] != ""
  }

  /** The tables after one `dataSend` entry. */
  function CommitPick(orders: seq<OrderLine>, cells: map<string, string>, pick: Pick, so: Value, id: string)
    : (seq<OrderLine>, map<string, string>)
  {
    if Applies(orders, cells, pick, so, id) then
      (MarkDone(orders, pick.itemCode, so),
       cells[id := Join(RemoveFirst(Codes(cells[id]), pick.itemCode, pick.quantity), ',')])
    else (orders, cells)
  }

  /** The tables after the entries of `dataSend`, in order. */
  function CommitAll(orders: seq<OrderLine>, cells: map<string, string>, picks: seq<Pick>, so: Value, id: string)
    : (seq<OrderLine>, map<string, string>)
  {
    if picks == [] then (orders, cells)
    else
      var before := CommitAll(orders, cells, picks[..|picks| - 1], so, id);
      CommitPick(before.0, before.1, picks[|picks| - 1], so, id)
  }

  /** `after` holds the lines of `before` in place, differing at most in a
      status that was set. */
  predicate OnlyStatus(before: seq<OrderLine>, after: seq<OrderLine>)
  {
    && |after| == |before|
    && forall i :: 0 <= i < |before| ==>
         after[i] == before[i].(done := after[i].done) && (before[i].done ==> after[i].done)
  }

  /** An applied pick takes exactly `min(quantity, count)` copies of its code
      out of the scanned pigeonhole (none for a quantity of 0 or less), the
      counts of every other non-empty code stay, and every line of the order
      with that code is marked retrieved whatever quantity was picked. */
  lemma CommitPickApplied(orders: seq<OrderLine>, cells: map<string, string>, pick: Pick, so: Value, id: string, d: string)
    requires Applies(orders, cells, pick, so, id) && d != ""
    ensures var (orders', cells') := CommitPick(orders, cells, pick, so, id);
      && id in cells'
      && Count(Codes(cells'[id]), d)
         == (if d == pick.itemCode then Count(Codes(cells[id]), d) - Removed(Codes(cells[id]), d, pick.quantity)
             else Count(Codes(cells[id]), d))
      && forall i :: 0 <= i < |orders| ==>
           orders'[i].done == (orders[i].done || Marks(orders[i], pick.itemCode, so))
  {
    var codes := Codes(cells[id]);
    var rest := RemoveFirst(codes, pick.itemCode, pick.quantity);
    CellAfterRemoval(cells[id], pick.itemCode, pick.quantity);
    RemoveFirstCount(codes, pick.itemCode, pick.quantity);
    if d != pick.itemCode {
      RemoveFirstKeepsOthers(codes, pick.itemCode, pick.quantity, d);
    }
    if rest == [] {
      assert Count([""], d) == 0;
    }
  }

  /** A pick that is not applied leaves both tables as they were; in
      particular every pick is ignored when the scanned pigeonhole is
      missing or empty. */
  lemma CommitPickIgnored(orders: seq<OrderLine>, cells: map<string, string>, pick: Pick, so: Value, id: string)
    requires !HasLine(orders, so, pick.itemCode) || id !in cells || cells[id] == ""
    ensures CommitPick(orders, cells, pick, so, id) == (orders, cells)
  {
  }

  /** Over a whole `dataSend`: the table keeps its lines and only ever sets
      statuses, no pigeonhole is added or removed, and no pigeonhole other
      than the scanned one changes. */
  lemma {:induction false} CommitAllFrame(orders: seq<OrderLine>, cells: map<string, string>, picks: seq<Pick>,
                                          so: Value, id: string)
    ensures var (orders', cells') := CommitAll(orders, cells, picks, so, id);
      && OnlyStatus(orders, orders')
      && cells'.Keys == cells.Keys
      && forall other :: other in cells && other != id ==> cells'[other] == cells[other]
  {
    if picks != [] {
      var p := picks[..|picks| - 1];
      CommitAllFrame(orders, cells, p, so, id);
      var before := CommitAll(orders, cells, p, so, id);
      var pick := picks[|picks| - 1];
      if Applies(before.0, before.1, pick, so, id) {
        var after := MarkDone(before.0, pick.itemCode, so);
        assert OnlyStatus(before.0, after);
      }
    }
  }

  /** Lines of other orders are never marked: a status changes only for a
      line of the given SO number whose code is among the picks. */
  lemma {:induction false} CommitAllMarksOnlyPicked(orders: seq<OrderLine>, cells: map<string, string>,
                                                    picks: seq<Pick>, so: Value, id: string, i: nat)
    requires i < |orders|
    requires !orders[i].done
    requires !SqlEq(orders[i].soNo, so) || forall k :: 0 <= k < |picks| ==> picks[k].itemCode != orders[i].itemCode
    ensures i < |CommitAll(orders, cells, picks, so, id).0|
    ensures !CommitAll(orders, cells, picks, so, id).0[i].done
  {
    if picks != [] {
      var p := picks[..|picks| - 1];
      CommitAllMarksOnlyPicked(orders, cells, p, so, id, i);
      CommitAllFrame(orders, cells, p, so, id);
    }
  }

  /** `SELECT item_code, item_quantity FROM retrieve WHERE so_no = ? AND
      item_code = ?`: whether the scan over the table finds a line. */
  method FindLine(orders: seq<OrderLine>, so: Value, code: string) returns (found: bool)
    ensures found <==> HasLine(orders, so, code)
  {
    found := false;
    for j := 0 to |orders|
      invariant found <==> exists i :: 0 <= i < j && SqlEq(orders[i].soNo, so) && orders[i].itemCode == code
    {
      if !found && SqlEq(orders[j].soNo, so) && orders[j].itemCode == code {
        found := true;
      }
    }
  }

  /** `UPDATE retrieve SET status = true ... WHERE item_code = ? AND so_no
      = ?`, row by row: the lines of the order with the code are marked
      retrieved and every other line is kept. */
  method MarkLines(orders: seq<OrderLine>, code: string, so: Value) returns (marked: seq<OrderLine>)
    ensures |marked| == |orders|
    ensures forall i :: 0 <= i < |orders| ==>
              marked[i] == if Marks(orders[i], code, so) then orders[i].(done := true) else orders[i]
    ensures marked == MarkDone(orders, code, so)
  {
    marked := [];
    for j := 0 to |orders|
      invariant marked == MarkDone(orders[..j], code, so)
    {
      assert orders[..j + 1][..j] == orders[..j];
      var line := orders[j];
      if line.itemCode == code && SqlEq(line.soNo, so) {
        line := line.(done := true);
      }
      marked := marked + [line];
    }
    assert orders[..|orders|] == orders;
  }

  /** The database: the `retrieve` table and the `pigeonhole` table (id to
      comma-separated contents). */
  class Tables {
    var orders: seq<OrderLine>
    var cells: map<string, string>

    constructor(orders0: seq<OrderLine>, cells0: map<string, string>)
      ensures orders == orders0 && cells == cells0
    {
      orders := orders0;
      cells := cells0;
    }

    /** `/add_order`: read the header, look for the SO number among the
        stored ones, then insert row after row. */
    method AddOrder(body: seq<seq<Value>>) returns (outcome: AddOutcome)
      modifies this
      ensures (outcome, orders) == Orders.AddOrder(old(orders), body)
      ensures cells == old(cells)
    {
      if |body| < 3 {
        return Aborted;
      }
      var h := Header(CellAt(body[0], 1), CellAt(body[1], 2), CellAt(body[2], 2));
      for i := 0 to |orders|
        invariant forall j :: 0 <= j < i ==> orders[j].soNo != h.soNo
      {
        if orders[i].soNo == h.soNo {
          return AlreadyExists;
        }
      }
      var rows := if |body| > 4 then body[4..] else [];
      ghost var table := orders;
      assert !IsDuplicate(table, h.soNo);
      for i := 0 to |rows|
        invariant table == old(orders)
        invariant InsertRows(h, rows[..i]).0
        invariant orders == table + InsertRows(h, rows[..i]).1
        invariant cells == old(cells)
      {
        InsertRowsAppend(h, rows[..i], rows[i..]);
        InsertRowsAppend(h, rows[..i], [rows[i]]);
        assert rows[..i] + rows[i..] == rows;
        assert rows[..i + 1] == rows[..i] + [rows[i]];
        match ItemCodeOf(rows[i])
        case None =>
          assert rows[i..][0] == rows[i];
          assert InsertRows(h, rows[i..]) == (false, []);
          assert InsertRows(h, rows[..i]).1 + [] == InsertRows(h, rows[..i]).1;
          return Aborted;
        case Some(code) =>
          orders := orders + [LineOf(h, rows[i], code)];
      }
      assert rows[..|rows|] == rows;
      return Uploaded;
    }

    /** `/update_retrieve`: for each entry, look the line up, read the
        pigeonhole, rewrite its contents and mark the lines retrieved. */
    method UpdateRetrieve(dataSend: seq<Pick>, soNumber: Value, pigeonholeId: string)
      modifies this
      ensures (orders, cells) == CommitAll(old(orders), old(cells), dataSend, soNumber, pigeonholeId)
    {
      for k := 0 to |dataSend|
        invariant (orders, cells) == CommitAll(old(orders), old(cells), dataSend[..k], soNumber, pigeonholeId)
      {
        assert dataSend[..k + 1][..k] == dataSend[..k];
        var pick := dataSend[k];
        var found := FindLine(orders, soNumber, pick.itemCode);
        if found && pigeonholeId in cells && cells[pigeonholeId] != "" {
          var updated := RemoveItemCodes(cells[pigeonholeId], pick.itemCode, pick.quantity);
          cells := cells[pigeonholeId := updated];
          var marked := MarkLines(orders, pick.itemCode, soNumber);
          orders := marked;
        }
      }
      assert dataSend[..|dataSend|] == dataSend;
    }
  }
}
