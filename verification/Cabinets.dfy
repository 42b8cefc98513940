/** add_liquid_cooled_cabinet.py: the hardware of a new cabinet, its node IDs, and the whole script. */
module Cabinets {
  import opened Outcomes

  datatype Hardware = Cabinet | ChassisBmc | Chassis | Node(role: string, nid: int) | Other

  datatype Item = Item(xname: string, hardware: Hardware)

  datatype CabinetType = Mountain | Hill | EX2500(chassisCount: int)

  function Digit(n: nat): char
    requires n < 10
  {
    "0123456789"[n]
  }

  /** The chassis of a cabinet; an EX2500 has one to three. */
  function ChassisOf(cabinetType: CabinetType): Option<seq<string>> {
    match cabinetType
    case Mountain => Some(["c0", "c1", "c2", "c3", "c4", "c5", "c6", "c7"])
    case Hill => Some(["c1", "c3"])
    case EX2500(count) => if 1 <= count <= 3 then Some(["c0", "c1", "c2"][..count]) else None
  }

  function NodeXname(chassis: string, slot: nat, bmc: nat, node: nat): string
    requires slot < 10 && bmc < 10 && node < 10
  {
    chassis + ['s', Digit(slot), 'b', Digit(bmc), 'n', Digit(node)]
  }

  /** The k-th node of a chassis. */
  function NodeItem(chassis: string, firstNid: int, k: nat): Item
    requires k < 32
  {
    Item(NodeXname(chassis, k / 4, k / 2 % 2, k % 2), Node("Compute", firstNid + k))
  }

  /** `items` are the first nodes of a chassis, in order. */
  ghost predicate AreNodes(items: seq<Item>, chassis: string, firstNid: int) {
    |items| <= 32 && forall k :: 0 <= k < |items| ==> items[k] == NodeItem(chassis, firstNid, k)
  }

  function ChassisNodes(chassis: string, firstNid: int): (items: seq<Item>)
    ensures |items| == 32 && AreNodes(items, chassis, firstNid)
  {
    seq(32, k requires 0 <= k < 32 => NodeItem(chassis, firstNid, k))
  }

  /** The hardware of a chassis: its BMC, itself, 32 nodes. */
  function ChassisItems(cabinet: string, chassis: string, firstNid: int): (items: seq<Item>)
    ensures |items| == 34
  {
    [Item(cabinet + chassis + "b0", ChassisBmc), Item(cabinet + chassis, Chassis)]
    + ChassisNodes(cabinet + chassis, firstNid)
  }

  function AllChassisItems(cabinet: string, chassisList: seq<string>, firstNid: int): seq<Item> {
    if chassisList == [] then []
    else ChassisItems(cabinet, chassisList[0], firstNid) + AllChassisItems(cabinet, chassisList[1..], firstNid + 32)
  }

  function CabinetItems(cabinet: string, chassisList: seq<string>, firstNid: int): seq<Item> {
    [Item(cabinet, Cabinet)] + AllChassisItems(cabinet, chassisList, firstNid)
  }

  lemma OneNodeMore(items: seq<Item>, chassis: string, firstNid: int, slot: nat, bmc: nat, node: nat)
    requires slot < 8 && bmc < 2 && node < 2
    requires |items| == 4 * slot + 2 * bmc + node && AreNodes(items, chassis, firstNid)
    ensures AreNodes(items + [Item(NodeXname(chassis, slot, bmc, node), Node("Compute", firstNid + |items|))],
                     chassis, firstNid)
  {
    Place(slot, bmc, node);
  }

  lemma Place(slot: nat, bmc: nat, node: nat)
    requires slot < 8 && bmc < 2 && node < 2
    ensures var k := 4 * slot + 2 * bmc + node;
            k < 32 && k / 4 == slot && k / 2 % 2 == bmc && k % 2 == node
  {
  }

  /** The loops over slots, BMCs and nodes of one chassis. */
  method GenerateNodes(chassis: string, firstNid: int) returns (items: seq<Item>, nextNid: int)
    ensures items == ChassisNodes(chassis, firstNid)
    ensures nextNid == firstNid + 32
  {
    items := [];
    var currentNid := firstNid;
    for slot := 0 to 8
      invariant currentNid == firstNid + |items| && |items| == 4 * slot
      invariant AreNodes(items, chassis, firstNid)
    {
      for bmc := 0 to 2
        invariant currentNid == firstNid + |items| && |items| == 4 * slot + 2 * bmc
        invariant AreNodes(items, chassis, firstNid)
      {
        for node := 0 to 2
          invariant currentNid == firstNid + |items| && |items| == 4 * slot + 2 * bmc + node
          invariant AreNodes(items, chassis, firstNid)
        {
          OneNodeMore(items, chassis, firstNid, slot, bmc, node);
          items := items + [Item(NodeXname(chassis, slot, bmc, node), Node("Compute", currentNid))];
          currentNid := currentNid + 1;
        }
      }
    }
    nextNid := currentNid;
  }

  method GenerateHardware(cabinet: string, chassisList: seq<string>, startingNid: int)
    returns (items: seq<Item>, nextNid: int)
    ensures items == CabinetItems(cabinet, chassisList, startingNid)
    ensures nextNid == startingNid + 32 * |chassisList|
  {
    items := [Item(cabinet, Cabinet)];
    var currentNid := startingNid;
    for c := 0 to |chassisList|
      invariant currentNid == startingNid + 32 * c
      invariant items + AllChassisItems(cabinet, chassisList[c..], currentNid)
             == CabinetItems(cabinet, chassisList, startingNid)
    {
      var chassis := cabinet + chassisList[c];
      var nodes, next := GenerateNodes(chassis, currentNid);
      ghost var rest := AllChassisItems(cabinet, chassisList[c + 1..], next);
      assert chassisList[c..][0] == chassisList[c] && chassisList[c..][1..] == chassisList[c + 1..];
      assert items + (ChassisItems(cabinet, chassisList[c], currentNid) + rest)
          == items + [Item(chassis + "b0", ChassisBmc), Item(chassis, Chassis)] + nodes + rest;
      items := items + [Item(chassis + "b0", ChassisBmc), Item(chassis, Chassis)] + nodes;
      currentNid := next;
    }
    assert items + [] == items;
    nextNid := currentNid;
  }

  // ---------------------------------------------------------------------------------------------
  // Node IDs
  // ---------------------------------------------------------------------------------------------

  /** The k-th node of chassis number c stands at this place in the hardware of the cabinet. */
  function NodePlace(c: nat, k: nat): nat {
    34 * c + 3 + k
  }

  /** Each node's ID is start + 32 * chassis + 4 * slot + 2 * bmc + node. */
  lemma NodeIds(cabinet: string, chassisList: seq<string>, start: int, c: nat, slot: nat, bmc: nat, node: nat)
    requires c < |chassisList| && slot < 8 && bmc < 2 && node < 2
    ensures var items := CabinetItems(cabinet, chassisList, start);
            var place := NodePlace(c, 4 * slot + 2 * bmc + node);
            && place < |items|
            && items[place] == Item(NodeXname(cabinet + chassisList[c], slot, bmc, node),
                                    Node("Compute", start + 32 * c + 4 * slot + 2 * bmc + node))
  {
    Place(slot, bmc, node);
    ItemsOfChassis(cabinet, chassisList, start, c, 4 * slot + 2 * bmc + node);
  }

  lemma {:induction false} ItemsOfChassis(cabinet: string, chassisList: seq<string>, start: int, c: nat, k: nat)
    requires c < |chassisList| && k < 32
    ensures |AllChassisItems(cabinet, chassisList, start)| == 34 * |chassisList|
    ensures AllChassisItems(cabinet, chassisList, start)[34 * c + k + 2]
         == NodeItem(cabinet + chassisList[c], start + 32 * c, k)
  {
    var first, rest := ChassisItems(cabinet, chassisList[0], start),
        AllChassisItems(cabinet, chassisList[1..], start + 32);
    ItemCount(cabinet, chassisList[1..], start + 32);
    if c == 0 {
      assert (first + rest)[k + 2] == first[k + 2];
    } else {
      ItemsOfChassis(cabinet, chassisList[1..], start + 32, c - 1, k);
      assert (first + rest)[34 * c + k + 2] == rest[34 * (c - 1) + k + 2];
    }
  }

  lemma {:induction false} ItemCount(cabinet: string, chassisList: seq<string>, start: int)
    ensures |AllChassisItems(cabinet, chassisList, start)| == 34 * |chassisList|
  {
    if chassisList != [] {
      ItemCount(cabinet, chassisList[1..], start + 32);
    }
  }

  lemma NodesOfChassis(cabinet: string, chassis: string, start: int, i: nat)
    requires i < 34 && ChassisItems(cabinet, chassis, start)[i].hardware.Node?
    ensures i >= 2 && ChassisItems(cabinet, chassis, start)[i].hardware == Node("Compute", start + i - 2)
  {
    var nodes := ChassisNodes(cabinet + chassis, start);
    if i >= 2 {
      assert nodes[i - 2] == NodeItem(cabinet + chassis, start, i - 2);
    }
  }

  lemma NextChassis(i: nat)
    requires i >= 34
    ensures i / 34 == (i - 34) / 34 + 1 && i % 34 == (i - 34) % 34
  {
  }

  /** An item that is a node is the one that has its place's ID. */
  lemma {:induction false} NodesOnly(cabinet: string, chassisList: seq<string>, start: int, i: nat)
    requires i < |AllChassisItems(cabinet, chassisList, start)|
    ensures var item := AllChassisItems(cabinet, chassisList, start)[i];
            item.hardware.Node? ==>
              i % 34 >= 2 && item.hardware == Node("Compute", start + 32 * (i / 34) + i % 34 - 2)
  {
    var first, rest := ChassisItems(cabinet, chassisList[0], start),
        AllChassisItems(cabinet, chassisList[1..], start + 32);
    if i < 34 {
      assert (first + rest)[i] == first[i];
      if first[i].hardware.Node? {
        NodesOfChassis(cabinet, chassisList[0], start, i);
      }
    } else {
      NodesOnly(cabinet, chassisList[1..], start + 32, i - 34);
      NextChassis(i);
      assert (first + rest)[i] == rest[i - 34];
    }
  }

  ghost predicate HasNid(items: seq<Item>, i: nat, nid: int) {
    i < |items| && items[i].hardware.Node? && items[i].hardware.nid == nid
  }

  /** A node ID decides where its node stands. */
  lemma PlaceOfNid(cabinet: string, chassisList: seq<string>, start: int, i: nat, nid: int)
    requires HasNid(CabinetItems(cabinet, chassisList, start), i, nid)
    ensures start <= nid < start + 32 * |chassisList| && i == NodePlace((nid - start) / 32, (nid - start) % 32)
  {
    ItemCount(cabinet, chassisList, start);
    assert i >= 1
        && CabinetItems(cabinet, chassisList, start)[i] == AllChassisItems(cabinet, chassisList, start)[i - 1];
    NodesOnly(cabinet, chassisList, start, i - 1);
    PlaceArithmetic(i - 1, |chassisList|, nid - start);
  }

  lemma PlaceArithmetic(place: nat, count: nat, offset: int)
    requires place < 34 * count && place % 34 >= 2 && offset == 32 * (place / 34) + place % 34 - 2
    ensures 0 <= offset < 32 * count && offset / 32 == place / 34 && offset % 32 == place % 34 - 2
  {
    var c, k := place / 34, place % 34 - 2;
    assert offset == 32 * c + k && 0 <= k < 32;
  }

  lemma NidAtPlace(cabinet: string, chassisList: seq<string>, start: int, nid: int)
    requires start <= nid < start + 32 * |chassisList|
    ensures HasNid(CabinetItems(cabinet, chassisList, start), NodePlace((nid - start) / 32, (nid - start) % 32), nid)
  {
    ItemsOfChassis(cabinet, chassisList, start, (nid - start) / 32, (nid - start) % 32);
  }

  /** The generated IDs fill [start, next) without gaps and without repeats. */
  lemma NidsFillTheRange(cabinet: string, chassisList: seq<string>, start: int, nid: int)
    ensures var items := CabinetItems(cabinet, chassisList, start);
            && ((exists i :: HasNid(items, i, nid)) <==> start <= nid < start + 32 * |chassisList|)
            && forall i, j :: HasNid(items, i, nid) && HasNid(items, j, nid) ==> i == j
  {
    var items := CabinetItems(cabinet, chassisList, start);
    forall i: nat | HasNid(items, i, nid)
      ensures start <= nid < start + 32 * |chassisList| && i == NodePlace((nid - start) / 32, (nid - start) % 32)
    {
      PlaceOfNid(cabinet, chassisList, start, i, nid);
    }
    if start <= nid < start + 32 * |chassisList| {
      NidAtPlace(cabinet, chassisList, start, nid);
    }
  }

  // ---------------------------------------------------------------------------------------------
  // Reading the names back
  // ---------------------------------------------------------------------------------------------

  datatype Position = Position(slot: int, bmc: int, node: int)

  function DigitValue(c: char): int {
    c as int - '0' as int
  }

  /** The position of a node, read from what stands after its chassis: s, b and n with a digit each. */
  function ReadPosition(text: string): Option<Position> {
    if |text| == 6 && text[0] == 's' && text[2] == 'b' && text[4] == 'n' then
      Some(Position(DigitValue(text[1]), DigitValue(text[3]), DigitValue(text[5])))
    else
      None
  }

  lemma DigitReads(n: nat)
    requires n < 10
    ensures DigitValue(Digit(n)) == n
  {
  }

  lemma NodeXnameReads(chassis: string, slot: nat, bmc: nat, node: nat)
    requires slot < 10 && bmc < 10 && node < 10
    ensures chassis <= NodeXname(chassis, slot, bmc, node)
    ensures ReadPosition(NodeXname(chassis, slot, bmc, node)[|chassis|..]) == Some(Position(slot, bmc, node))
  {
    DigitReads(slot);
    DigitReads(bmc);
    DigitReads(node);
  }

  lemma PositionOf(k: nat)
    requires k < 32
    ensures 0 <= k / 4 <= 7 && 0 <= k / 2 % 2 <= 1 && 0 <= k % 2 <= 1
    ensures k == 4 * (k / 4) + 2 * (k / 2 % 2) + k % 2
  {
  }

  /** The cabinet comes first; the 34 items of a chassis start with its BMC and itself. */
  lemma ItemsAre(cabinet: string, chassisList: seq<string>, start: int, c: nat)
    requires c < |chassisList|
    ensures var items := CabinetItems(cabinet, chassisList, start);
            && |items| == 34 * |chassisList| + 1 && items[0] == Item(cabinet, Cabinet)
            && items[34 * c + 1] == Item(cabinet + chassisList[c] + "b0", ChassisBmc)
            && items[34 * c + 2] == Item(cabinet + chassisList[c], Chassis)
  {
    ItemCount(cabinet, chassisList, start);
    FirstItems(cabinet, chassisList, start, c);
  }

  lemma {:induction false} FirstItems(cabinet: string, chassisList: seq<string>, start: int, c: nat)
    requires c < |chassisList|
    ensures |AllChassisItems(cabinet, chassisList, start)| == 34 * |chassisList|
    ensures AllChassisItems(cabinet, chassisList, start)[34 * c] == Item(cabinet + chassisList[c] + "b0", ChassisBmc)
    ensures AllChassisItems(cabinet, chassisList, start)[34 * c + 1] == Item(cabinet + chassisList[c], Chassis)
  {
    var first, rest := ChassisItems(cabinet, chassisList[0], start),
        AllChassisItems(cabinet, chassisList[1..], start + 32);
    ItemCount(cabinet, chassisList[1..], start + 32);
    if c > 0 {
      FirstItems(cabinet, chassisList[1..], start + 32, c - 1);
      assert (first + rest)[34 * c] == rest[34 * (c - 1)];
      assert (first + rest)[34 * c + 1] == rest[34 * (c - 1) + 1];
    }
  }

  /** A node's name gives its position back, and its ID is the one for that position. */
  lemma NodeReads(cabinet: string, chassisList: seq<string>, start: int, c: nat, k: nat)
    requires c < |chassisList| && k < 32
    ensures |CabinetItems(cabinet, chassisList, start)| == 34 * |chassisList| + 1
    ensures var item, chassis := CabinetItems(cabinet, chassisList, start)[34 * c + 3 + k], cabinet + chassisList[c];
            && chassis <= item.xname
            && var place := item.xname[|chassis|..];
               && |place| == 6 && place[0] == 's' && place[2] == 'b' && place[4] == 'n'
               && ReadPosition(place).Some?
               && var p := ReadPosition(place).value;
                  && 0 <= p.slot <= 7 && 0 <= p.bmc <= 1 && 0 <= p.node <= 1 && k == 4 * p.slot + 2 * p.bmc + p.node
                  && item.hardware == Node("Compute", start + 32 * c + 4 * p.slot + 2 * p.bmc + p.node)
  {
    ItemCount(cabinet, chassisList, start);
    ItemsOfChassis(cabinet, chassisList, start, c, k);
    var item := CabinetItems(cabinet, chassisList, start)[34 * c + 3 + k];
    assert item == NodeItem(cabinet + chassisList[c], start + 32 * c, k);
    NodeXnameReads(cabinet + chassisList[c], k / 4, k / 2 % 2, k % 2);
    PositionOf(k);
  }

  /** The chassis of a cabinet are those the source lists: all eight, the second and the fourth, or the first ones. */
  lemma ChassisNumbers(cabinetType: CabinetType)
    ensures ChassisOf(cabinetType).Some? <==> cabinetType.EX2500? ==> 1 <= cabinetType.chassisCount <= 3
    ensures ChassisOf(cabinetType).Some? ==>
              var list := ChassisOf(cabinetType).value;
              && |list| == (if cabinetType.Mountain? then 8 else if cabinetType.Hill? then 2
                            else cabinetType.chassisCount)
              && forall c :: 0 <= c < |list| ==>
                   && |list[c]| == 2 && list[c][0] == 'c'
                   && DigitValue(list[c][1]) == if cabinetType.Hill? then 2 * c + 1 else c
  {
  }

  /** Where a place of the hardware lies: in which chassis, and which of its 34 items. */
  lemma PlaceIn(i: nat, count: nat) returns (c: nat, k: nat)
    requires 1 <= i <= 34 * count
    ensures c < count && k < 34 && i == 34 * c + 1 + k
  {
    c, k := (i - 1) / 34, (i - 1) % 34;
  }

  predicate TwoLetters(chassisList: seq<string>) {
    && (forall c :: 0 <= c < |chassisList| ==> |chassisList[c]| == 2)
    && forall c, d :: 0 <= c < d < |chassisList| ==> chassisList[c] != chassisList[d]
  }

  /** The name of the k-th item of a chassis: its length tells what it is, and it starts with the chassis. */
  lemma ItemName(cabinet: string, chassisList: seq<string>, start: int, c: nat, k: nat)
    requires c < |chassisList| && k < 34 && TwoLetters(chassisList)
    ensures |CabinetItems(cabinet, chassisList, start)| == 34 * |chassisList| + 1
    ensures var xname := CabinetItems(cabinet, chassisList, start)[34 * c + 1 + k].xname;
            && |xname| == |cabinet| + (if k == 0 then 4 else if k == 1 then 2 else 8)
            && xname[|cabinet|..|cabinet| + 2] == chassisList[c]
            && (k >= 2 ==> ReadPosition(xname[|cabinet| + 2..]).Some?
                           && var p := ReadPosition(xname[|cabinet| + 2..]).value;
                              k - 2 == 4 * p.slot + 2 * p.bmc + p.node)
  {
    ItemsAre(cabinet, chassisList, start, c);
    var chassis := cabinet + chassisList[c];
    var xname := CabinetItems(cabinet, chassisList, start)[34 * c + 1 + k].xname;
    assert chassis[|cabinet|..|cabinet| + 2] == chassisList[c];
    if k >= 2 {
      NodeReads(cabinet, chassisList, start, c, k - 2);
      assert xname == chassis + xname[|chassis|..];
    }
  }

  lemma ChassisDiffer(cabinetType: CabinetType)
    requires ChassisOf(cabinetType).Some?
    ensures TwoLetters(ChassisOf(cabinetType).value)
  {
    ChassisNumbers(cabinetType);
  }

  lemma TwoNamesDiffer(cabinet: string, chassisList: seq<string>, start: int, c: nat, k: nat, d: nat, l: nat)
    requires c < |chassisList| && d < |chassisList| && k < 34 && l < 34 && TwoLetters(chassisList)
    requires c != d || k != l
    ensures |CabinetItems(cabinet, chassisList, start)| == 34 * |chassisList| + 1
    ensures var items := CabinetItems(cabinet, chassisList, start);
            items[34 * c + 1 + k].xname != items[34 * d + 1 + l].xname
  {
    ItemName(cabinet, chassisList, start, c, k);
    ItemName(cabinet, chassisList, start, d, l);
  }

  /** No name appears twice in the hardware of a cabinet. */
  lemma NamesDiffer(cabinet: string, cabinetType: CabinetType, start: int, i: nat, j: nat)
    requires ChassisOf(cabinetType).Some?
    requires i < j < |CabinetItems(cabinet, ChassisOf(cabinetType).value, start)|
    ensures var items := CabinetItems(cabinet, ChassisOf(cabinetType).value, start);
            items[i].xname != items[j].xname
  {
    var list := ChassisOf(cabinetType).value;
    ChassisDiffer(cabinetType);
    ItemCount(cabinet, list, start);
    var d, l := PlaceIn(j, |list|);
    if i > 0 {
      var c, k := PlaceIn(i, |list|);
      TwoNamesDiffer(cabinet, list, start, c, k, d, l);
    } else {
      ItemName(cabinet, list, start, d, l);
    }
  }
}
