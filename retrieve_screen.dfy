/**
 * The retrieve station screen of client/src/components/station/Retrieve.jsx:
 * Start loads the first retrievable sales order and its pigeonholes, the
 * first scan names the pigeonhole the operator takes the items from, the
 * second scan (typed, or reported by the light panel) names the bin they go
 * into, and a confirmed bin commits the pick through `/update_retrieve`.
 */
module RetrieveScreen {
  import opened Wrappers
  import opened Strings
  import opened JsObject
  import opened Orders
  import opened Allocation
  import opened ScanInput

  /** The requests the screen sends, in the order it sends them. */
  datatype Request =
    | GetRetrieve(station: string)
    | GetGreenPigeonhole(rack: string, side: string, soNo: Option<string>)
    | GetRetrieveRack(station: string)
    | GetItem(soNo: Option<string>, pigeonhole: string)
    | GetBin(soNo: Option<string>)
    | Light(locationId: Option<string>, quantity: int)
    | UpdateRetrieve(dataSend: seq<Pick>, soNo: Option<string>, pigeonholeId: string)

  /** The `/get_retrieve` reply as the screen reads it: a message and the
      `pigeonhole` object (SO number to zones), keys as `Object.keys` gives
      them. */
  datatype RetrieveList = RetrieveList(message: string, pigeonhole: seq<Entry<string, Zones>>)

  const NoItem: string := "No item in pigeonhole"

  /** `key.split("-")[0]` and `key.split("-")[1]`, the latter printed as
      `undefined` when missing. */
  function RackSide(key: string): (string, string)
  {
    var parts := Split(key, '-');
    (parts[0], IdPart(parts, 1))
  }

  /** For a key the server built from a pigeonhole id, the rack and side
      the screen keeps are the id's own first and second parts. */
  lemma RackSideOfZoneKey(id: string)
    ensures RackSide(ZoneKey(id)) == (IdPart(Split(id, '-'), 0), IdPart(Split(id, '-'), 1))
  {
    ZoneKeyParts(id);
  }

  /** The sum of `item_quantity` over the items. */
  function SumOf(items: seq<Option<Item>>): int
  {
    if items == [] then 0
    else (if items[0].Some? then items[0].value.quantity else 0) + SumOf(items[1..])
  }

  /** `items.reduce((total, item) => total + item.item_quantity, 0)`: `None`
      when a `null` entry (an item row that was not found) throws. */
  function TotalQuantity(items: seq<Option<Item>>): (r: Option<int>)
    ensures r.Some? <==> forall i :: 0 <= i < |items| ==> items[i].Some?
    ensures r.Some? ==> r.value == SumOf(items)
  {
    if items == [] then Some(0)
    else
      var p := items[..|items| - 1];
      var last := items[|items| - 1];
      match TotalQuantity(p)
      case None => None
      case Some(t) =>
        SumSnoc(p, last);
        assert items == p + [last];
        if last.Some? then Some(t + last.value.quantity) else None
  }

  lemma {:induction false} SumSnoc(p: seq<Option<Item>>, last: Option<Item>)
    ensures SumOf(p + [last]) == SumOf(p) + (if last.Some? then last.value.quantity else 0)
  {
    if p != [] {
      assert (p + [last])[1..] == p[1..] + [last];
      SumSnoc(p[1..], last);
    } else {
      assert p + [last] == [last];
    }
  }

  /** Everything the screen holds, for stating what a handler leaves. */
  datatype Screen = Screen(
    isInputOne: bool, isBtnStartDisplay: bool,
    pigeonhole: string, bin: string,
    soNumber: Option<string>, greenPigeonhole: seq<string>, greenBin: Option<string>,
    itemData: Option<seq<Option<Item>>>, dataSend: seq<Pick>,
    currRack: string, currSide: string, notice: Notice, userId: Option<string>)

  /** The screen after the `/get_item` reply of a valid first scan: the
      items are shown, and the pigeonhole buffer is cleared when the request
      failed or the quantities cannot be added up. */
  function AfterItems(s: Screen, items: Reply<seq<Option<Item>>>): Screen
  {
    match items
    case Answered(list) =>
      if TotalQuantity(list).Some? then s.(itemData := Some(list))
      else s.(itemData := Some(list), pigeonhole := "")
    case Failed => s.(pigeonhole := "")
    case Pending => s
  }

  /** The quantity the bin light shows: the items' total, or 0 when there is
      none. */
  function LightQuantity(items: Reply<seq<Option<Item>>>): int
  {
    if items.Answered? && TotalQuantity(items.value).Some? then TotalQuantity(items.value).value else 0
  }

  /** The screen once the `/get_ratrieve_rack` request of `handleStart` has
      settled: the start button is hidden after the reply or the error, and
      stays as it was while no reply comes. */
  function AfterRack(s: Screen, rack: Reply<()>): Screen
  {
    if rack.Pending? then s else s.(isBtnStartDisplay := false)
  }

  /** The screen after a committed pick (`handleSuccess`). */
  function AfterSuccess(s: Screen, green: Reply<seq<string>>): Screen
  {
    s.(notice := Success("Item retrieved {" + s.pigeonhole + "}"),
       greenPigeonhole := if green.Answered? then green.value else s.greenPigeonhole,
       greenBin := None, itemData := None, isInputOne := true, bin := "", pigeonhole := "")
  }

  class RetrieveStation {
    var isInputOne: bool
    var isBtnStartDisplay: bool
    var pigeonhole: string
    var bin: string
    var soNumber: Option<string>
    var greenPigeonhole: seq<string>
    var greenBin: Option<string>
    var itemData: Option<seq<Option<Item>>>
    var dataSend: seq<Pick>
    var currRack: string
    var currSide: string
    var notice: Notice
    /** `userInfo.id`; `None` when nobody is logged in. */
    var userId: Option<string>

    function Snapshot(): Screen
      reads this
    {
      Screen(isInputOne, isBtnStartDisplay, pigeonhole, bin, soNumber, greenPigeonhole, greenBin,
             itemData, dataSend, currRack, currSide, notice, userId)
    }

    /** In first-scan mode no bin is expected. */
    predicate Valid()
      reads this
    {
      isInputOne ==> greenBin == None
    }

    /** The initial state of the component. */
    constructor(user: Option<string>)
      ensures Valid()
      ensures Snapshot() == Screen(true, true, "", "", Some(""), [], None, None, [], "", "", Quiet, user)
    {
      isInputOne, isBtnStartDisplay := true, true;
      pigeonhole, bin := "", "";
      soNumber, greenPigeonhole, greenBin := Some(""), [], None;
      itemData, dataSend := None, [];
      currRack, currSide, notice := "", "", Quiet;
      userId := user;
    }

    /** `handleStart` for the selected station (`None`: none selected). */
    method Start(station: Option<string>, reply: Reply<RetrieveList>, green: Reply<seq<string>>, rack: Reply<()>)
      returns (requests: seq<Request>)
      requires Valid()
      modifies this
      ensures Valid()
      ensures station.None? ==> requests == [] && Snapshot() == old(Snapshot())
      ensures station.Some? && reply.Pending? ==>
                requests == [GetRetrieve(station.value)] && Snapshot() == old(Snapshot())
      ensures station.Some? && reply.Failed? ==>
                && requests == [GetRetrieve(station.value), GetRetrieveRack(station.value)]
                && Snapshot() == AfterRack(old(Snapshot()).(notice := Error(NoItem)), rack)
      ensures station.Some? && reply.Answered? && reply.value.message == NoItem ==>
                requests == [GetRetrieve(station.value)] && Snapshot() == old(Snapshot()).(notice := Error(NoItem))
      ensures station.Some? && reply.Answered? && reply.value.message != NoItem && reply.value.pigeonhole == [] ==>
                && requests == [GetRetrieve(station.value), GetRetrieveRack(station.value)]
                && Snapshot() == AfterRack(old(Snapshot()).(soNumber := None, notice := Error(NoItem)), rack)
      ensures station.Some? && reply.Answered? && reply.value.message != NoItem && reply.value.pigeonhole != [] ==>
                var so := reply.value.pigeonhole[0].key;
                var zones := reply.value.pigeonhole[0].value;
                if zones == [] then
                  && requests == [GetRetrieve(station.value), GetRetrieveRack(station.value)]
                  && Snapshot() == AfterRack(old(Snapshot()).(soNumber := Some(so), notice := Error(NoItem)), rack)
                else
                  var (rack', side) := RackSide(zones[0].key);
                  && requests == [GetRetrieve(station.value), GetGreenPigeonhole(rack', side, Some(so)),
                                  GetRetrieveRack(station.value)]
                  && Snapshot() == AfterRack(old(Snapshot()).(
                       soNumber := Some(so), currRack := rack', currSide := side,
                       greenPigeonhole := if green.Answered? then green.value else zones[0].value), rack)
    {
      if station.None? {
        return [];
      }
      requests := [GetRetrieve(station.value)];
      match reply {
        case Pending =>
          return;
        case Failed =>
          notice := Error(NoItem);
        case Answered(data) =>
          if data.message == NoItem {
            notice := Error(NoItem);
            return;
          }
          if data.pigeonhole == [] {
            soNumber := None;
            notice := Error(NoItem);
          } else {
            var so := data.pigeonhole[0].key;
            var zones := data.pigeonhole[0].value;
            soNumber := Some(so);
            if zones == [] {
              notice := Error(NoItem);
            } else {
              var (r, side) := RackSide(zones[0].key);
              currRack, currSide := r, side;
              greenPigeonhole := zones[0].value;
              requests := requests + [GetGreenPigeonhole(r, side, Some(so))];
              if green.Answered? {
                greenPigeonhole := green.value;
              }
            }
          }
      }
      requests := requests + [GetRetrieveRack(station.value)];
      if !rack.Pending? {
        isBtnStartDisplay := false;
      }
    }

    /** `handleFirstScan`: a key while the pigeonhole is being scanned. */
    method FirstScanKey(key: string, items: Reply<seq<Option<Item>>>, binReply: Reply<Option<string>>)
      returns (requests: seq<Request>)
      requires Valid() && isInputOne
      modifies this
      ensures Valid()
      ensures key != "Enter" ==> requests == [] && Snapshot() == old(Snapshot()).(pigeonhole := Edit(old(pigeonhole), key))
      ensures key == "Enter" && old(pigeonhole) !in old(greenPigeonhole) ==>
                && requests == []
                && Snapshot() == old(Snapshot()).(pigeonhole := "", notice := Error("Wrong pigeonhole(" + old(pigeonhole) + ")"))
      ensures key == "Enter" && old(pigeonhole) in old(greenPigeonhole) ==>
                var asked := [GetItem(old(soNumber), old(pigeonhole))];
                var s := AfterItems(old(Snapshot()), items);
                if items.Pending? then requests == asked && Snapshot() == old(Snapshot())
                else match binReply
                  case Pending => requests == asked + [GetBin(old(soNumber))] && Snapshot() == s
                  case Failed => requests == asked + [GetBin(old(soNumber))] && Snapshot() == s.(pigeonhole := "")
                  case Answered(b) =>
                    && requests == asked + [GetBin(old(soNumber)), Light(b, LightQuantity(items))]
                    && Snapshot() == s.(greenBin := b, isInputOne := false)
    {
      if key != "Enter" {
        pigeonhole := Edit(pigeonhole, key);
        return [];
      }
      if pigeonhole !in greenPigeonhole {
        notice := Error("Wrong pigeonhole(" + pigeonhole + ")");
        pigeonhole := "";
        return [];
      }
      var totalQuantity := 0;
      requests := [GetItem(soNumber, pigeonhole)];
      match items {
        case Pending =>
          return;
        case Failed =>
          pigeonhole := "";
        case Answered(list) =>
          itemData := Some(list);
          var total := TotalQuantity(list);
          if total.Some? {
            totalQuantity := total.value;
          } else {
            pigeonhole := "";
          }
      }
      requests := requests + [GetBin(soNumber)];
      match binReply {
        case Pending =>
        case Failed =>
          pigeonhole := "";
        case Answered(b) =>
          greenBin := b;
          isInputOne := false;
          requests := requests + [Light(b, totalQuantity)];
      }
    }

    /** `handleSecondScan`: a key while the bin is being scanned. */
    method SecondScanKey(key: string, commit: Reply<()>, green: Reply<seq<string>>)
      returns (requests: seq<Request>)
      requires Valid() && !isInputOne
      modifies this
      ensures Valid()
      ensures key != "Enter" ==> requests == [] && Snapshot() == old(Snapshot()).(bin := Edit(old(bin), key))
      ensures key == "Enter" ==> BinChecked(old(Snapshot()), commit, green, requests, Snapshot())
    {
      if key != "Enter" {
        bin := Edit(bin, key);
        return [];
      }
      requests := CheckBin(commit, green);
    }

    /** The `lightCommand` socket event with the `LocationId` it carries. It
        is heard in either mode. */
    method LightEvent(locationId: string, commit: Reply<()>, green: Reply<seq<string>>)
      returns (requests: seq<Request>)
      requires Valid()
      modifies this
      ensures Valid()
      ensures old(isInputOne) ==> requests == [] && Snapshot() == old(Snapshot())
      ensures locationId == "" || old(greenBin) == None || old(greenBin) == Some("") ==>
                requests == [] && Snapshot() == old(Snapshot())
      ensures locationId != "" && old(greenBin).Some? && old(greenBin) != Some("") ==>
                BinChecked(old(Snapshot()).(bin := locationId), commit, green, requests, Snapshot())
    {
      if locationId != "" && greenBin.Some? && greenBin.value != "" {
        bin := locationId;
        requests := CheckBin(commit, green);
      } else {
        requests := [];
      }
    }

    /** The bin check shared by the typed second scan and the light event:
        a bin other than the expected one raises an error and commits
        nothing; the expected bin commits the pick. */
    method CheckBin(commit: Reply<()>, green: Reply<seq<string>>) returns (requests: seq<Request>)
      requires Valid()
      modifies this
      ensures Valid()
      ensures BinChecked(old(Snapshot()), commit, green, requests, Snapshot())
    {
      if greenBin != Some(bin) {
        notice := Error("Wrong bin(" + bin + ")");
        return [];
      }
      if userId.None? {
        bin := "";
        return [];
      }
      requests := [UpdateRetrieve(dataSend, soNumber, pigeonhole)];
      match commit {
        case Pending =>
        case Failed =>
          bin := "";
        case Answered(_) =>
          var refresh := Succeed(green);
          requests := requests + refresh;
      }
    }

    /** `handleSuccess`: announce the pick, refresh the green pigeonholes and
        go back to the first scan. */
    method Succeed(green: Reply<seq<string>>) returns (requests: seq<Request>)
      modifies this
      ensures Valid()
      ensures requests == [GetGreenPigeonhole(old(currRack), old(currSide), old(soNumber))]
      ensures Snapshot() == AfterSuccess(old(Snapshot()), green)
    {
      requests := [GetGreenPigeonhole(currRack, currSide, soNumber)];
      notice := Success("Item retrieved {" + pigeonhole + "}");
      if green.Answered? {
        greenPigeonhole := green.value;
      }
      greenBin := None;
      itemData := None;
      isInputOne := true;
      bin := "";
      pigeonhole := "";
    }

    /** `handleQuantitiesChange`: the quantities confirmed in the item list. */
    method SetQuantities(updated: seq<Pick>)
      modifies this
      ensures Snapshot() == old(Snapshot()).(dataSend := updated)
    {
      dataSend := updated;
    }
  }

  /** What checking the bin of screen `s` does: a wrong bin shows an error
      and nothing else; the expected bin sends the commit, and its reply
      either leaves the screen (no reply), clears only the bin (failure) or
      resets the screen to the first scan (success). Reading the id of a
      missing user throws before the commit is sent, which the handler
      treats as a failure. */
  predicate BinChecked(s: Screen, commit: Reply<()>, green: Reply<seq<string>>, requests: seq<Request>, s': Screen)
  {
    if s.greenBin != Some(s.bin) then
      requests == [] && s' == s.(notice := Error("Wrong bin(" + s.bin + ")"))
    else if s.userId.None? then
      requests == [] && s' == s.(bin := "")
    else
      var sent := [UpdateRetrieve(s.dataSend, s.soNumber, s.pigeonhole)];
      match commit
      case Pending => requests == sent && s' == s
      case Failed => requests == sent && s' == s.(bin := "")
      case Answered(_) =>
        && requests == sent + [GetGreenPigeonhole(s.currRack, s.currSide, s.soNumber)]
        && s' == AfterSuccess(s, green)
  }

  /** A commit is only ever sent for the bin the screen expects, and never
      before a first scan has found one. */
  lemma CommitOnlyForExpectedBin(s: Screen, commit: Reply<()>, green: Reply<seq<string>>, requests: seq<Request>, s': Screen)
    requires BinChecked(s, commit, green, requests, s')
    requires s.isInputOne ==> s.greenBin == None
    ensures (exists i :: 0 <= i < |requests| && requests[i].UpdateRetrieve?) <==> s.greenBin == Some(s.bin) && s.userId.Some?
    ensures s.greenBin != Some(s.bin) ==> s'.bin == s.bin && s'.isInputOne == s.isInputOne
    ensures s.greenBin == Some(s.bin) ==> !s.isInputOne
  {
    if s.greenBin == Some(s.bin) && s.userId.Some? {
      assert requests[0].UpdateRetrieve?;
    }
  }
}
