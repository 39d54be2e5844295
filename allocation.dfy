/**
 * The read-only endpoints of server/API/retrieve.js that decide what a
 * pigeonhole station may retrieve: `/get_storage` finds the sales orders
 * whose every pending line is held by a single pigeonhole in sufficient
 * number and groups those pigeonholes by rack and side; `/get_item` lists
 * the order's items that a scanned pigeonhole holds.
 */
module Allocation {
  import opened Wrappers
  import opened Strings
  import opened JsObject
  import opened Pigeonhole
  import opened Orders

  /** A row of the `pigeonhole` table: its id (`rack-side-...`) and its
      comma-separated contents. */
  datatype Cell = Cell(id: string, contents: string)

  /** A row of the `item` table, as far as the station uses it. */
  datatype Item = Item(itemCode: string, quantity: int)

  /** The rack and side handed to the fleet for an accepted order. */
  datatype Dispatch = Dispatch(rack: string, side: string)

  /** Zones of one order: key `rack-side` to the pigeonhole ids in line order. */
  type Zones = seq<Entry<string, seq<string>>>

  /** The `/get_storage` reply: the `pigeonhole` object (SO number to zones)
      and the fleet requests made for the accepted orders. */
  datatype Storage = Storage(pigeonhole: seq<Entry<Value, Zones>>, dispatches: seq<Dispatch>)

  // ----- zone keys -----

  /** `parts[i]` as a template literal prints it: `undefined` past the end. */
  function IdPart(parts: seq<string>, i: nat): string
  {
    if i < |parts| then parts[i] else "undefined"
  }

  /** `${part1}-${part2}` from the first two `-`-separated parts of an id. */
  function ZoneKey(id: string): string
  {
    var parts := Split(id, '-');
    IdPart(parts, 0) + "-" + IdPart(parts, 1)
  }

  /** Splitting a zone key again gives back the rack part and the side part
      it was made of. */
  lemma ZoneKeyParts(id: string)
    ensures Split(ZoneKey(id), '-') == [IdPart(Split(id, '-'), 0), IdPart(Split(id, '-'), 1)]
  {
    var parts := Split(id, '-');
    var xs := [IdPart(parts, 0), IdPart(parts, 1)];
    assert '-' !in "undefined";
    assert Join(xs, '-') == ZoneKey(id);
    SplitJoin(xs, '-');
  }

  // ----- the SQL reads -----

  /** `SELECT DISTINCT so_no FROM retrieve WHERE status = 0`, in order of
      first appearance. */
  function PendingSoNumbers(table: seq<OrderLine>): (r: seq<Value>)
  {
    if table == [] then []
    else
      var prev := PendingSoNumbers(table[..|table| - 1]);
      var line := table[|table| - 1];
      if !line.done && line.soNo !in prev then prev + [line.soNo] else prev
  }

  /** The distinct list holds each pending SO number once, and nothing else. */
  lemma {:induction false} PendingSoNumbersSpec(table: seq<OrderLine>)
    ensures forall v :: v in PendingSoNumbers(table) <==> exists i :: 0 <= i < |table| && !table[i].done && table[i].soNo == v
    ensures forall i, j :: 0 <= i < j < |PendingSoNumbers(table)| ==> PendingSoNumbers(table)[i] != PendingSoNumbers(table)[j]
  {
    if table != [] {
      var p := table[..|table| - 1];
      PendingSoNumbersSpec(p);
      forall v | v in PendingSoNumbers(table)
        ensures exists i :: 0 <= i < |table| && !table[i].done && table[i].soNo == v
      {
        if v in PendingSoNumbers(p) {
          var i :| 0 <= i < |p| && !p[i].done && p[i].soNo == v;
          assert table[i] == p[i];
        }
      }
      forall v | exists i :: 0 <= i < |table| && !table[i].done && table[i].soNo == v
        ensures v in PendingSoNumbers(table)
      {
        var i :| 0 <= i < |table| && !table[i].done && table[i].soNo == v;
        if i < |p| {
          assert p[i] == table[i];
        }
      }
    }
  }

  /** `SELECT * FROM retrieve WHERE so_no = ? AND status = 0`. */
  function OrderRows(table: seq<OrderLine>, so: Value): seq<OrderLine>
  {
    if table == [] then []
    else (if SqlEq(table[0].soNo, so) && !table[0].done then [table[0]] else []) + OrderRows(table[1..], so)
  }

  // ----- one order line -----

  /** The pigeonhole id a line is sourced from, when the single cell the
      lookup returns holds at least the line's quantity of its code. The
      lookup stands for `item_code LIKE %code%`: the first row whose text
      contains the code. */
  function QualifyingCell(line: OrderLine, find: string -> Option<Cell>): Option<string>
  {
    match find(line.itemCode)
    case None => None
    case Some(cell) =>
      var tally := Tally(Codes(cell.contents));
      var count := if line.itemCode in tally then Some(tally[line.itemCode]) else None;
      if MeetsQuantity(count, line.quantity) then Some(cell.id) else None
  }

  /** A line qualifies exactly when the returned cell holds the code itself
      (not just text containing it) at least once and at least as many times
      as the line's quantity asks. */
  lemma QualifyingCellSpec(line: OrderLine, find: string -> Option<Cell>)
    ensures QualifyingCell(line, find).Some? <==>
      && find(line.itemCode).Some?
      && var count := Count(Codes(find(line.itemCode).value.contents), line.itemCode);
         count >= 1 && MeetsQuantity(Some(count), line.quantity)
    ensures QualifyingCell(line, find).Some? ==> QualifyingCell(line, find).value == find(line.itemCode).value.id
  {
    if find(line.itemCode).Some? {
      TallyCounts(Codes(find(line.itemCode).value.contents), line.itemCode);
    }
  }

  /** The ids of the qualifying lines, in line order (one per qualifying
      line, so the counter is its length). */
  function QualifyingIds(lines: seq<OrderLine>, find: string -> Option<Cell>): seq<string>
  {
    if lines == [] then []
    else
      var prev := QualifyingIds(lines[..|lines| - 1], find);
      match QualifyingCell(lines[|lines| - 1], find)
      case Some(id) => prev + [id]
      case None => prev
  }

  predicate AllQualify(lines: seq<OrderLine>, find: string -> Option<Cell>)
  {
    forall i :: 0 <= i < |lines| ==> QualifyingCell(lines[i], find).Some?
  }

  /** The counter reaches the number of lines exactly when every line
      qualifies, and then the i-th id is the i-th line's cell. */
  lemma {:induction false} QualifyingIdsSpec(lines: seq<OrderLine>, find: string -> Option<Cell>)
    ensures |QualifyingIds(lines, find)| <= |lines|
    ensures |QualifyingIds(lines, find)| == |lines| <==> AllQualify(lines, find)
    ensures AllQualify(lines, find) ==>
      forall i :: 0 <= i < |lines| ==> QualifyingIds(lines, find)[i] == QualifyingCell(lines[i], find).value
  {
    if lines != [] {
      var p := lines[..|lines| - 1];
      QualifyingIdsSpec(p, find);
      QualifyingIdsStep(lines, find);
      AllQualifySnoc(lines, find);
      if AllQualify(lines, find) {
        var ids := QualifyingIds(lines, find);
        forall i | 0 <= i < |lines|
          ensures ids[i] == QualifyingCell(lines[i], find).value
        {
          if i < |p| {
            assert p[i] == lines[i];
          }
        }
      }
    }
  }

  lemma AllQualifySnoc(lines: seq<OrderLine>, find: string -> Option<Cell>)
    requires lines != []
    ensures AllQualify(lines, find) <==>
      AllQualify(lines[..|lines| - 1], find) && QualifyingCell(lines[|lines| - 1], find).Some?
  {
    var p := lines[..|lines| - 1];
    assert forall i :: 0 <= i < |p| ==> p[i] == lines[i];
  }

  lemma QualifyingIdsStep(lines: seq<OrderLine>, find: string -> Option<Cell>)
    requires lines != []
    ensures QualifyingIds(lines, find) ==
      var prev := QualifyingIds(lines[..|lines| - 1], find);
      var q := QualifyingCell(lines[|lines| - 1], find);
      if q.Some? then prev + [q.value] else prev
  {
  }

  // ----- grouping by zone -----

  /** `tempData[key] = tempData[key] ? [...tempData[key], id] : [id]`. */
  function PushTo(o: Zones, k: string, id: string): Zones
  {
    Put(o, k, match Get(o, k) case Some(l) => l + [id] case None => [id])
  }

  /** The zones built from the ids, one `PushTo` per id. */
  function Grouped(ids: seq<string>): Zones
  {
    if ids == [] then []
    else
      var last := ids[|ids| - 1];
      PushTo(Grouped(ids[..|ids| - 1]), ZoneKey(last), last)
  }

  /** The ids whose zone key is `k`, in order. */
  function InZone(ids: seq<string>, k: string): seq<string>
  {
    if ids == [] then []
    else
      var last := ids[|ids| - 1];
      InZone(ids[..|ids| - 1], k) + (if ZoneKey(last) == k then [last] else [])
  }

  lemma {:induction false} InZoneEmpty(ids: seq<string>, k: string)
    ensures InZone(ids, k) == [] <==> forall i :: 0 <= i < |ids| ==> ZoneKey(ids[i]) != k
  {
    if ids != [] {
      InZoneEmpty(ids[..|ids| - 1], k);
      assert forall i :: 0 <= i < |ids| - 1 ==> ids[..|ids| - 1][i] == ids[i];
    }
  }

  /** Each key lists exactly the ids of its zone, in order; a key is present
      only for zones some id belongs to; no key is listed twice. */
  lemma {:induction false} GroupedSpec(ids: seq<string>, k: string)
    ensures Get(Grouped(ids), k) == if InZone(ids, k) == [] then None else Some(InZone(ids, k))
    ensures UniqueKeys(Grouped(ids))
  {
    if ids != [] {
      var p := ids[..|ids| - 1];
      var last := ids[|ids| - 1];
      var key := ZoneKey(last);
      GroupedSpec(p, k);
      GroupedSpec(p, key);
      var v := match Get(Grouped(p), key) case Some(l) => l + [last] case None => [last];
      GroupedStep(ids);
      InZoneStep(ids, k);
      GetPut(Grouped(p), key, v, k);
      UniquePut(Grouped(p), key, v);
      assert Grouped(ids) == Put(Grouped(p), key, v);
      if key == k {
        assert v == InZone(p, k) + [last];
        assert InZone(ids, k) == InZone(p, k) + [last];
      } else {
        assert InZone(ids, k) == InZone(p, k);
      }
    }
  }

  lemma GroupedStep(ids: seq<string>)
    requires ids != []
    ensures Grouped(ids) == PushTo(Grouped(ids[..|ids| - 1]), ZoneKey(ids[|ids| - 1]), ids[|ids| - 1])
  {
  }

  lemma InZoneStep(ids: seq<string>, k: string)
    requires ids != []
    ensures InZone(ids, k) == InZone(ids[..|ids| - 1], k) + (if ZoneKey(ids[|ids| - 1]) == k then [ids[|ids| - 1]] else [])
  {
  }

  /** A zone key is among the keys exactly when some id lies in that zone. */
  lemma GroupedKeys(ids: seq<string>, k: string)
    ensures k in Keys(Grouped(ids)) <==> exists i :: 0 <= i < |ids| && ZoneKey(ids[i]) == k
  {
    GroupedSpec(ids, k);
    InZoneEmpty(ids, k);
  }

  // ----- /get_storage -----

  /** The fleet request for the first zone of an accepted order, if any
      (the `for ... in` loop breaks after one key). */
  function FirstDispatch(zones: Zones): seq<Dispatch>
  {
    if zones == [] then []
    else
      var parts := Split(zones[0].key, '-');
      [Dispatch(IdPart(parts, 0), IdPart(parts, 1))]
  }

  /** The outer loop over the pending SO numbers `sos`. */
  function StorageOver(sos: seq<Value>, table: seq<OrderLine>, find: string -> Option<Cell>): Storage
  {
    if sos == [] then Storage([], [])
    else
      var prev := StorageOver(sos[..|sos| - 1], table, find);
      var so := sos[|sos| - 1];
      var lines := OrderRows(table, so);
      var ids := QualifyingIds(lines, find);
      if |ids| == |lines| then
        var zones := Grouped(ids);
        Storage(Put(prev.pigeonhole, so, zones), prev.dispatches + FirstDispatch(zones))
      else prev
  }

  /** `/get_storage` for a station of type `stationType`. */
  function GetStorageSpec(table: seq<OrderLine>, find: string -> Option<Cell>, stationType: string): Storage
  {
    if stationType == "pigeonhole" then StorageOver(PendingSoNumbers(table), table, find)
    else Storage([], [])
  }

  /** An SO number is in the reply exactly when it was looped over and all
      its pending lines qualified; then it carries the zones of those lines'
      cells. */
  lemma {:induction false} StorageOverSpec(sos: seq<Value>, table: seq<OrderLine>, find: string -> Option<Cell>, so: Value)
    ensures Get(StorageOver(sos, table, find).pigeonhole, so) ==
      if so in sos && AllQualify(OrderRows(table, so), find)
      then Some(Grouped(QualifyingIds(OrderRows(table, so), find)))
      else None
    ensures UniqueKeys(StorageOver(sos, table, find).pigeonhole)
  {
    if sos != [] {
      var p := sos[..|sos| - 1];
      var last := sos[|sos| - 1];
      assert sos == p + [last];
      StorageOverSpec(p, table, find, so);
      var lines := OrderRows(table, last);
      QualifyingIdsSpec(lines, find);
      if |QualifyingIds(lines, find)| == |lines| {
        var prev := StorageOver(p, table, find);
        GetPut(prev.pigeonhole, last, Grouped(QualifyingIds(lines, find)), so);
        UniquePut(prev.pigeonhole, last, Grouped(QualifyingIds(lines, find)));
      }
    }
  }

  /** An order is in the `pigeonhole` reply exactly when it has a pending
      line and every line `so_no = ?` selects for it is held, in sufficient
      number, by the single cell its lookup returns. For a NULL SO number
      that query selects nothing, so the order is accepted with empty zones
      (`NullSoAccepted`). A station that is not a pigeonhole station gets an
      empty reply. */
  lemma StorageAccepts(table: seq<OrderLine>, find: string -> Option<Cell>, stationType: string, so: Value)
    ensures so in Keys(GetStorageSpec(table, find, stationType).pigeonhole) <==>
      && stationType == "pigeonhole"
      && (exists i :: 0 <= i < |table| && !table[i].done && table[i].soNo == so)
      && AllQualify(OrderRows(table, so), find)
  {
    PendingSoNumbersSpec(table);
    if stationType == "pigeonhole" {
      StorageOverSpec(PendingSoNumbers(table), table, find, so);
    }
  }

  /** `so_no = ?` bound to NULL selects no line. */
  lemma {:induction false} OrderRowsNull(table: seq<OrderLine>)
    ensures OrderRows(table, Null) == []
  {
    if table != [] {
      OrderRowsNull(table[1..]);
    }
  }

  /** A pending line with a NULL SO number puts NULL in the reply with no
      zones, whatever the line holds and whatever the cells hold: its query
      selects no line, so the counter 0 equals the number of lines. */
  lemma NullSoAccepted(table: seq<OrderLine>, find: string -> Option<Cell>)
    requires exists i :: 0 <= i < |table| && !table[i].done && table[i].soNo == Null
    ensures Get(GetStorageSpec(table, find, "pigeonhole").pigeonhole, Null) == Some([])
  {
    PendingSoNumbersSpec(table);
    OrderRowsNull(table);
    StorageOverSpec(PendingSoNumbers(table), table, find, Null);
  }

  /** For an accepted order, the list under each `rack-side` key is the cells
      of that zone in line order, and only zones of its cells are keys. */
  lemma StorageZones(table: seq<OrderLine>, find: string -> Option<Cell>, so: Value, k: string)
    requires so in Keys(GetStorageSpec(table, find, "pigeonhole").pigeonhole)
    ensures var zones := Get(GetStorageSpec(table, find, "pigeonhole").pigeonhole, so).value;
      var ids := QualifyingIds(OrderRows(table, so), find);
      && |ids| == |OrderRows(table, so)|
      && Get(zones, k) == (if InZone(ids, k) == [] then None else Some(InZone(ids, k)))
      && UniqueKeys(zones)
  {
    StorageOverSpec(PendingSoNumbers(table), table, find, so);
    var ids := QualifyingIds(OrderRows(table, so), find);
    QualifyingIdsSpec(OrderRows(table, so), find);
    GroupedSpec(ids, k);
  }

  /** The inner loop of `/get_storage` over one order's pending lines: the
      counter of qualifying lines and `tempData`, their cells grouped by
      zone. The counter reaches the number of lines exactly when every line
      qualifies. */
  method GroupOrder(lines: seq<OrderLine>, find: string -> Option<Cell>) returns (counter: nat, tempData: Zones)
    ensures counter == |QualifyingIds(lines, find)|
    ensures tempData == Grouped(QualifyingIds(lines, find))
    ensures counter == |lines| <==> AllQualify(lines, find)
  {
    counter, tempData := 0, [];
    for j := 0 to |lines|
      invariant counter == |QualifyingIds(lines[..j], find)|
      invariant tempData == Grouped(QualifyingIds(lines[..j], find))
    {
      assert lines[..j + 1][..j] == lines[..j];
      QualifyingIdsStep(lines[..j + 1], find);
      match QualifyingCell(lines[j], find)
      case Some(id) =>
        tempData := PushTo(tempData, ZoneKey(id), id);
        counter := counter + 1;
      case None =>
    }
    assert lines[..|lines|] == lines;
    QualifyingIdsSpec(lines, find);
  }

  /** `/get_storage`: for each pending SO number, look up each pending line's
      cell, count the code in it, group the qualifying cells by zone, and keep
      the order when the counter equals the number of lines. */
  method GetStorage(table: seq<OrderLine>, find: string -> Option<Cell>, stationType: string)
    returns (r: Storage)
    ensures r == GetStorageSpec(table, find, stationType)
  {
    r := Storage([], []);
    if stationType == "pigeonhole" {
      var numbers := PendingSoNumbers(table);
      for n := 0 to |numbers|
        invariant r == StorageOver(numbers[..n], table, find)
      {
        var so := numbers[n];
        var lines := OrderRows(table, so);
        var counter, tempData := GroupOrder(lines, find);
        assert numbers[..n + 1][..n] == numbers[..n];
        if counter == |lines| {
          r := Storage(Put(r.pigeonhole, so, tempData), r.dispatches + FirstDispatch(tempData));
        }
      }
      assert numbers[..|numbers|] == numbers;
    }
  }

  // ----- /get_item -----

  /** `SELECT item_code FROM retrieve WHERE so_no = ?` (any status). */
  function SoItemCodes(table: seq<OrderLine>, so: Value): seq<string>
  {
    if table == [] then []
    else (if SqlEq(table[0].soNo, so) then [table[0].itemCode] else []) + SoItemCodes(table[1..], so)
  }

  /** The order's codes that `includes` finds in the cell's list, in order. */
  function Matched(codes: seq<string>, cellCodes: seq<string>): seq<string>
  {
    if codes == [] then []
    else
      Matched(codes[..|codes| - 1], cellCodes)
        + (if codes[|codes| - 1] in cellCodes then [codes[|codes| - 1]] else [])
  }

  /** Every order code held by the cell appears as often as the order lists
      it, codes the cell lacks do not appear, and the order is kept. */
  lemma {:induction false} MatchedSpec(codes: seq<string>, cellCodes: seq<string>, c: string)
    ensures Count(Matched(codes, cellCodes), c) == if c in cellCodes then Count(codes, c) else 0
    ensures forall i :: 0 <= i < |Matched(codes, cellCodes)| ==> Matched(codes, cellCodes)[i] in cellCodes
    ensures IsSubsequence(Matched(codes, cellCodes), codes)
  {
    if codes != [] {
      var p := codes[..|codes| - 1];
      var last := codes[|codes| - 1];
      MatchedSpec(p, cellCodes, c);
      assert codes == p + [last];
      CountAppend(p, [last], c);
      var tail := if last in cellCodes then [last] else [];
      CountAppend(Matched(p, cellCodes), tail, c);
      SubsequenceSnoc(Matched(p, cellCodes), p, last, last in cellCodes);
    }
  }

  /** Extending the longer list by one entry, and optionally the shorter
      list by the same entry, keeps the one inside the other. */
  lemma {:induction false} SubsequenceSnoc(a: seq<string>, b: seq<string>, x: string, keep: bool)
    requires IsSubsequence(a, b)
    ensures IsSubsequence(a + (if keep then [x] else []), b + [x])
    decreases |b|
  {
    var t := if keep then [x] else [];
    if a == [] {
      assert a + t == t;
      if keep && b != [] && b[0] != x {
        SubsequenceSnoc(a, b[1..], x, keep);
        assert (b + [x])[1..] == b[1..] + [x];
      }
      if keep && b == [] {
        assert b + [x] == [x];
        assert t[1..] == [];
      }
    } else {
      assert (a + t)[0] == a[0] && (a + t)[1..] == a[1..] + t;
      assert (b + [x])[0] == b[0] && (b + [x])[1..] == b[1..] + [x];
      if a[0] == b[0] {
        SubsequenceSnoc(a[1..], b[1..], x, keep);
      } else {
        SubsequenceSnoc(a, b[1..], x, keep);
      }
    }
  }

  /** One `item` row lookup per code, in order. */
  function LookupAll(codes: seq<string>, itemRow: string -> Option<Item>): (r: seq<Option<Item>>)
    ensures |r| == |codes|
    ensures forall i :: 0 <= i < |codes| ==> r[i] == itemRow(codes[i])
  {
    if codes == [] then []
    else LookupAll(codes[..|codes| - 1], itemRow) + [itemRow(codes[|codes| - 1])]
  }

  /** One more order code adds its item row exactly when the cell holds it. */
  lemma LookupMatchedStep(codes: seq<string>, cellCodes: seq<string>, itemRow: string -> Option<Item>)
    requires codes != []
    ensures LookupAll(Matched(codes, cellCodes), itemRow)
            == LookupAll(Matched(codes[..|codes| - 1], cellCodes), itemRow)
               + (if codes[|codes| - 1] in cellCodes then [itemRow(codes[|codes| - 1])] else [])
  {
    var last := codes[|codes| - 1];
    var m := Matched(codes[..|codes| - 1], cellCodes);
    if last in cellCodes {
      assert (m + [last])[..|m|] == m;
    } else {
      assert m + [] == m;
    }
  }

  /** The `/get_item` reply: `None` when the pigeonhole row is missing (the
      handler only logs and never answers), else one `item` row lookup per
      matched order code. */
  function GetItemSpec(table: seq<OrderLine>, cells: map<string, string>, so: Value, pigeonhole: string,
                       itemRow: string -> Option<Item>): Option<seq<Option<Item>>>
  {
    if pigeonhole !in cells then None
    else
      Some(LookupAll(Matched(SoItemCodes(table, so), Codes(cells[pigeonhole])), itemRow))
  }

  /** Every item of the reply is the item row of a code that is both one of
      the order's codes and in the cell's list. */
  lemma GetItemSpecMembers(table: seq<OrderLine>, cells: map<string, string>, so: Value, pigeonhole: string,
                           itemRow: string -> Option<Item>)
    ensures var r := GetItemSpec(table, cells, so, pigeonhole, itemRow);
      r.Some? ==> forall i :: 0 <= i < |r.value| ==>
        exists c :: c in Codes(cells[pigeonhole]) && c in SoItemCodes(table, so) && r.value[i] == itemRow(c)
  {
    if pigeonhole in cells {
      var codes := SoItemCodes(table, so);
      var cellCodes := Codes(cells[pigeonhole]);
      var m := Matched(codes, cellCodes);
      var items := LookupAll(m, itemRow);
      forall i | 0 <= i < |items|
        ensures exists c :: c in cellCodes && c in codes && items[i] == itemRow(c)
      {
        MatchedSpec(codes, cellCodes, m[i]);
        SubsequenceMembers(m, codes, i);
        assert m[i] in cellCodes && m[i] in codes && items[i] == itemRow(m[i]);
      }
    }
  }

  /** `/get_item`: loop over the order's codes and push the item row of each
      one the cell's list includes. */
  method GetItem(table: seq<OrderLine>, cells: map<string, string>, so: Value, pigeonhole: string,
                 itemRow: string -> Option<Item>) returns (r: Option<seq<Option<Item>>>)
    ensures r == GetItemSpec(table, cells, so, pigeonhole, itemRow)
    ensures r.Some? ==> forall i :: 0 <= i < |r.value| ==>
      exists c :: c in Codes(cells[pigeonhole]) && c in SoItemCodes(table, so) && r.value[i] == itemRow(c)
  {
    if pigeonhole !in cells {
      return None;
    }
    var itemCodeResult := SoItemCodes(table, so);
    var itemCodes := Codes(cells[pigeonhole]);
    var itemArray: seq<Option<Item>> := [];
    for i := 0 to |itemCodeResult|
      invariant itemArray == LookupAll(Matched(itemCodeResult[..i], itemCodes), itemRow)
    {
      assert itemCodeResult[..i + 1][..i] == itemCodeResult[..i];
      LookupMatchedStep(itemCodeResult[..i + 1], itemCodes, itemRow);
      if itemCodeResult[i] in itemCodes {
        itemArray := itemArray + [itemRow(itemCodeResult[i])];
      }
    }
    assert itemCodeResult[..|itemCodeResult|] == itemCodeResult;
    r := Some(itemArray);
    GetItemSpecMembers(table, cells, so, pigeonhole, itemRow);
  }
}
