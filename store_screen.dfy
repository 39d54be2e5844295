/**
 * The put-away station screen of client/src/components/station/Store.jsx:
 * the operator scans an item code of the selected store list, the screen
 * asks which pigeonholes may take it, the operator scans one of them, and
 * the first confirmed quantity is committed through `/store/update_store`.
 */
module StoreScreen {
  import opened Wrappers
  import opened Orders
  import opened Allocation
  import opened ScanInput

  /** The requests the screen sends, in the order it sends them. */
  datatype Request =
    | GetStoreData(storeNo: string)
    | GetStoreList(storeNo: string)
    | GetItemInfo(itemCode: string, selectedNo: Option<string>)
    | UpdateStore(itemCode: string, quantity: int, selectedNo: Option<string>, pigeonholeId: string)

  /** The `/store/get_item_info` reply: a `message` (empty when absent), the
      allowed pigeonhole ids (`None` when the `pigeonhole` array is missing)
      and the item. */
  datatype ItemReply = ItemReply(message: string, pigeonhole: Option<seq<string>>, itemInfo: Option<Item>)

  /** Everything the screen holds, for stating what a handler leaves;
      `storeList` holds the item codes of `currStoreList`. */
  datatype Screen = Screen(
    isInputOne: bool, scanItemCode: string, scanPigeonholeId: string,
    greenPigeonhole: seq<string>, itemData: Option<Item>, dataSend: seq<Pick>,
    storeList: seq<string>, selectedStoreNo: Option<string>, notice: Notice, userId: Option<string>)

  /** The invariant every handler keeps: in item-code mode no pigeonhole is
      offered. */
  predicate Consistent(s: Screen)
  {
    s.isInputOne ==> s.greenPigeonhole == []
  }

  /** `if (selectedStoreNo)`: a store is selected and its number is not empty. */
  predicate Truthy(no: Option<string>)
  {
    no.Some? && no.value != ""
  }

  /** The screen after a stored item (`handleSuccess`, then the handler's own
      `setGreenPigeonhole([])`). */
  function AfterSuccess(s: Screen, list: Reply<seq<string>>): Screen
  {
    s.(notice := Success("Store updated successfully at " + s.scanPigeonholeId + "."),
       isInputOne := true, scanPigeonholeId := "", scanItemCode := "", itemData := None, greenPigeonhole := [],
       storeList := if Truthy(s.selectedStoreNo) && list.Answered? then list.value else s.storeList)
  }

  /** The screen after a failed update (`handleError`). */
  function AfterError(s: Screen): Screen
  {
    s.(notice := Error("Error updating store."), scanPigeonholeId := "")
  }

  class StoreStation {
    var isInputOne: bool
    var scanItemCode: string
    var scanPigeonholeId: string
    var greenPigeonhole: seq<string>
    var itemData: Option<Item>
    var dataSend: seq<Pick>
    var storeList: seq<string>
    var selectedStoreNo: Option<string>
    var notice: Notice
    /** `userInfo.id`; `None` when nobody is logged in. */
    var userId: Option<string>

    function Snapshot(): Screen
      reads this
    {
      Screen(isInputOne, scanItemCode, scanPigeonholeId, greenPigeonhole, itemData, dataSend,
             storeList, selectedStoreNo, notice, userId)
    }

    /** While an item code is being scanned no pigeonhole is offered. */
    predicate Valid()
      reads this
    {
      Consistent(Snapshot())
    }

    /** The initial state of the component. */
    constructor(user: Option<string>)
      ensures Valid()
      ensures Snapshot() == Screen(true, "", "", [], None, [], [], None, Quiet, user)
    {
      isInputOne, scanItemCode, scanPigeonholeId := true, "", "";
      greenPigeonhole, itemData, dataSend := [], None, [];
      storeList, selectedStoreNo, notice := [], None, Quiet;
      userId := user;
    }

    /** `handleStoreSelect`: load the store's data and then its list. */
    method SelectStore(storeNo: string, data: Reply<()>, list: Reply<seq<string>>) returns (requests: seq<Request>)
      requires Valid()
      modifies this
      ensures Valid()
      ensures data.Pending? ==> requests == [GetStoreData(storeNo)] && Snapshot() == old(Snapshot())
      ensures data.Failed? ==>
                requests == [GetStoreData(storeNo)] && Snapshot() == old(Snapshot()).(selectedStoreNo := Some(storeNo))
      ensures data.Answered? ==>
                && requests == [GetStoreData(storeNo), GetStoreList(storeNo)]
                && Snapshot() == old(Snapshot()).(
                     selectedStoreNo := Some(storeNo),
                     storeList := if list.Answered? then list.value else old(storeList))
    {
      requests := [GetStoreData(storeNo)];
      match data {
        case Pending =>
          return;
        case Failed =>
        case Answered(_) =>
          requests := requests + [GetStoreList(storeNo)];
          if list.Answered? {
            storeList := list.value;
          }
      }
      selectedStoreNo := Some(storeNo);
    }

    /** `handleItemCodeInput`: a key while the item code is being scanned. */
    method ItemCodeKey(key: string, info: Reply<ItemReply>) returns (requests: seq<Request>)
      requires Valid() && isInputOne
      modifies this
      ensures Valid()
      ensures key != "Enter" ==>
                requests == [] && Snapshot() == old(Snapshot()).(scanItemCode := Edit(old(scanItemCode), key))
      ensures key == "Enter" && old(scanItemCode) !in old(storeList) ==>
                && requests == []
                && Snapshot() == old(Snapshot()).(
                     scanItemCode := "",
                     notice := Error("Item code(" + old(scanItemCode) + ") not found in store list."))
      ensures key == "Enter" && old(scanItemCode) in old(storeList) ==>
                && requests == [GetItemInfo(old(scanItemCode), old(selectedStoreNo))]
                && match info
                   case Pending => Snapshot() == old(Snapshot())
                   case Failed => Snapshot() == old(Snapshot()).(scanItemCode := "")
                   case Answered(r) =>
                     if r.message != "" || r.pigeonhole.None? then Snapshot() == old(Snapshot()).(scanItemCode := "")
                     else Snapshot() == old(Snapshot()).(
                            greenPigeonhole := r.pigeonhole.value, itemData := r.itemInfo, isInputOne := false)
    {
      if key != "Enter" {
        scanItemCode := Edit(scanItemCode, key);
        return [];
      }
      if scanItemCode !in storeList {
        notice := Error("Item code(" + scanItemCode + ") not found in store list.");
        scanItemCode := "";
        return [];
      }
      requests := [GetItemInfo(scanItemCode, selectedStoreNo)];
      match info {
        case Pending =>
        case Failed =>
          scanItemCode := "";
        case Answered(r) =>
          if r.message != "" || r.pigeonhole.None? {
            scanItemCode := "";
          } else {
            greenPigeonhole := r.pigeonhole.value;
            itemData := r.itemInfo;
            isInputOne := false;
          }
      }
    }

    /** `handlePigeonholeIdInput`: a key while the pigeonhole is being
        scanned. Only the first confirmed quantity is sent. */
    method PigeonholeKey(key: string, commit: Reply<()>, list: Reply<seq<string>>) returns (requests: seq<Request>)
      requires Valid() && !isInputOne
      modifies this
      ensures Valid()
      ensures key != "Enter" ==>
                requests == [] && Snapshot() == old(Snapshot()).(scanPigeonholeId := Edit(old(scanPigeonholeId), key))
      ensures key == "Enter" ==> PigeonholeChecked(old(Snapshot()), commit, list, requests, Snapshot())
    {
      if key != "Enter" {
        scanPigeonholeId := Edit(scanPigeonholeId, key);
        return [];
      }
      if scanPigeonholeId !in greenPigeonhole {
        notice := Error("Scan wrong pigeonhole(" + scanPigeonholeId + ").");
        scanPigeonholeId := "";
        return [];
      }
      if dataSend == [] || userId.None? {
        Fail();
        return [];
      }
      requests := [UpdateStore(dataSend[0].itemCode, dataSend[0].quantity, selectedStoreNo, scanPigeonholeId)];
      match commit {
        case Pending =>
        case Failed =>
          Fail();
        case Answered(_) =>
          var refresh := Succeed(list);
          requests := requests + refresh;
          greenPigeonhole := [];
      }
    }

    /** `handleSuccess`. */
    method Succeed(list: Reply<seq<string>>) returns (requests: seq<Request>)
      modifies this
      ensures Valid()
      ensures requests == if Truthy(old(selectedStoreNo)) then [GetStoreList(old(selectedStoreNo).value)] else []
      ensures Snapshot() == AfterSuccess(old(Snapshot()), list)
    {
      notice := Success("Store updated successfully at " + scanPigeonholeId + ".");
      isInputOne := true;
      scanPigeonholeId := "";
      scanItemCode := "";
      itemData := None;
      greenPigeonhole := [];
      if Truthy(selectedStoreNo) {
        requests := [GetStoreList(selectedStoreNo.value)];
        if list.Answered? {
          storeList := list.value;
        }
      } else {
        requests := [];
      }
    }

    /** `handleError`. */
    method Fail()
      modifies this
      ensures Snapshot() == AfterError(old(Snapshot()))
    {
      notice := Error("Error updating store.");
      scanPigeonholeId := "";
    }

    /** `handleQuantitiesChange`: the quantities confirmed in the item list. */
    method SetQuantities(updated: seq<Pick>)
      modifies this
      ensures Snapshot() == old(Snapshot()).(dataSend := updated)
    {
      dataSend := updated;
    }
  }

  /** What Enter on the pigeonhole input of screen `s` does: an id outside
      the offered ones clears the buffer and raises an error without a
      request; a missing first quantity (or user) throws before the request
      and is handled as a failed update; otherwise the first quantity is
      sent and the reply decides between reset and error. */
  predicate PigeonholeChecked(s: Screen, commit: Reply<()>, list: Reply<seq<string>>, requests: seq<Request>, s': Screen)
  {
    if s.scanPigeonholeId !in s.greenPigeonhole then
      requests == [] && s' == s.(scanPigeonholeId := "", notice := Error("Scan wrong pigeonhole(" + s.scanPigeonholeId + ")."))
    else if s.dataSend == [] || s.userId.None? then
      requests == [] && s' == AfterError(s)
    else
      var sent := [UpdateStore(s.dataSend[0].itemCode, s.dataSend[0].quantity, s.selectedStoreNo, s.scanPigeonholeId)];
      match commit
      case Pending => requests == sent && s' == s
      case Failed => requests == sent && s' == AfterError(s)
      case Answered(_) =>
        && requests == sent + (if Truthy(s.selectedStoreNo) then [GetStoreList(s.selectedStoreNo.value)] else [])
        && s' == AfterSuccess(s, list)
  }

  /** An update is only sent for an offered pigeonhole, and it carries the
      first confirmed quantity and nothing after it; a failed update leaves
      the screen in pigeonhole mode with the same offer and the same item. */
  lemma UpdateOnlyForOffered(s: Screen, commit: Reply<()>, list: Reply<seq<string>>, requests: seq<Request>, s': Screen)
    requires PigeonholeChecked(s, commit, list, requests, s')
    ensures |requests| > 0 ==>
              && s.scanPigeonholeId in s.greenPigeonhole && s.dataSend != []
              && requests[0] == UpdateStore(s.dataSend[0].itemCode, s.dataSend[0].quantity, s.selectedStoreNo, s.scanPigeonholeId)
              && forall i :: 1 <= i < |requests| ==> requests[i].GetStoreList?
    ensures s'.isInputOne != s.isInputOne ==> commit.Answered? && s'.isInputOne && s'.greenPigeonhole == []
    ensures commit.Failed? ==> s'.greenPigeonhole == s.greenPigeonhole && s'.itemData == s.itemData && s'.scanPigeonholeId == ""
  {
  }

  /** On a screen that keeps the invariant, a pigeonhole handler that still
      fires in item-code mode (a listener left over from an earlier render)
      finds no offered pigeonhole: it sends no update, stays in item-code
      mode and keeps the invariant. */
  lemma NoUpdateWhileScanningItems(s: Screen, commit: Reply<()>, list: Reply<seq<string>>,
                                   requests: seq<Request>, s': Screen)
    requires Consistent(s) && s.isInputOne
    requires PigeonholeChecked(s, commit, list, requests, s')
    ensures requests == []
    ensures s'.isInputOne && Consistent(s')
    ensures s'.greenPigeonhole == s.greenPigeonhole && s'.itemData == s.itemData
  {
  }
}
