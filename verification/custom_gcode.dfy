/** Custom G-code timeline items and the swap of the extruder they refer to.
    Extruder ids in the timeline are 1-based, unlike the 0-based indices of
    the wipe matrix; the swap itself does not care, it relabels whatever ids
    it is given. */
module CustomGCodeSwap {
  import opened Transposition

  /** The kind of a custom G-code event. */
  datatype GCodeType = ColorChange | PausePrint | ToolChange | Template | Custom

  /** One scheduled event: the height it fires at, its kind, the extruder it
      refers to, a colour and free-form extra text. The height is only carried,
      never computed with. */
  datatype Item = Item(printZ: real, kind: GCodeType, extruder: int, color: string, extra: string)

  /** The item with its extruder reference relabelled by (a b) and every other
      field kept. */
  function Retarget(item: Item, a: int, b: int): (r: Item)
    ensures r.extruder == Swap(a, b, item.extruder)
    ensures r.(extruder := item.extruder) == item
  {
    item.(extruder := Swap(a, b, item.extruder))
  }

  /** The timeline with every item retargeted, in the original order. */
  function SwapExtruders(items: seq<Item>, a: int, b: int): (r: seq<Item>)
    ensures |r| == |items|
    ensures forall k :: 0 <= k < |items| ==> r[k] == Retarget(items[k], a, b)
  {
    if items == [] then []
    else [Retarget(items[0], a, b)] + SwapExtruders(items[1..], a, b)
  }

  /** The swap over a timeline: one pass, each item whose extruder is `extA`
      gets `extB` and each whose extruder is `extB` gets `extA`. */
  method SwapCustomGCodeExtruders(gcodes: seq<Item>, extA: int, extB: int) returns (r: seq<Item>)
    ensures r == SwapExtruders(gcodes, extA, extB)
    ensures |r| == |gcodes|
    ensures forall k :: 0 <= k < |r| ==> r[k].(extruder := gcodes[k].extruder) == gcodes[k]
    ensures forall k :: 0 <= k < |r| ==> (r[k].extruder == extB <==> gcodes[k].extruder == extA)
    ensures forall k :: 0 <= k < |r| ==> (r[k].extruder == extA <==> gcodes[k].extruder == extB)
    ensures forall k :: 0 <= k < |r| && gcodes[k].extruder != extA && gcodes[k].extruder != extB ==>
      r[k] == gcodes[k]
  {
    r := gcodes;
    var i := 0;
    while i < |r|
      invariant i <= |r| == |gcodes|
      invariant forall k :: 0 <= k < i ==> r[k] == Retarget(gcodes[k], extA, extB)
      invariant forall k :: i <= k < |r| ==> r[k] == gcodes[k]
    {
      var item := r[i];
      if item.extruder == extA {
        r := r[i := item.(extruder := extB)];
      } else if item.extruder == extB {
        r := r[i := item.(extruder := extA)];
      }
      i := i + 1;
    }
  }

  /** Swapping the same two extruders twice restores the timeline. */
  lemma SwapExtrudersInvolutive(items: seq<Item>, a: int, b: int)
    ensures SwapExtruders(SwapExtruders(items, a, b), a, b) == items
  {
  }

  /** A timeline in which no item refers to either extruder is unchanged. */
  lemma SwapExtrudersNoMatch(items: seq<Item>, a: int, b: int)
    requires forall k :: 0 <= k < |items| ==> items[k].extruder != a && items[k].extruder != b
    ensures SwapExtruders(items, a, b) == items
  {
  }

  /** Swapping an extruder with itself is the identity on timelines. */
  lemma SwapExtrudersSelf(items: seq<Item>, a: int)
    ensures SwapExtruders(items, a, a) == items
  {
  }

  /** Swapping (a, b) and swapping (b, a) retarget a timeline identically. */
  lemma SwapExtrudersSymmetric(items: seq<Item>, a: int, b: int)
    ensures SwapExtruders(items, a, b) == SwapExtruders(items, b, a)
  {
  }

  /** The extruder ids of a timeline, in order. */
  function Extruders(items: seq<Item>): (ids: seq<int>)
    ensures |ids| == |items|
    ensures forall k :: 0 <= k < |items| ==> ids[k] == items[k].extruder
  {
    if items == [] then [] else [items[0].extruder] + Extruders(items[1..])
  }

  /** Swapping extruders 1 and 2 in a timeline referring to 1, 2, 3 gives
      2, 1, 3 and keeps heights, kinds and colours. */
  method SwapOneAndTwo() returns (r: seq<Item>)
    ensures Extruders(r) == [2, 1, 3]
    ensures r == [Item(1.0, ColorChange, 2, "#FF0000", ""),
                  Item(2.0, ToolChange, 1, "", ""),
                  Item(3.0, ColorChange, 3, "#0000FF", "")]
  {
    r := SwapCustomGCodeExtruders([Item(1.0, ColorChange, 1, "#FF0000", ""),
                                   Item(2.0, ToolChange, 2, "", ""),
                                   Item(3.0, ColorChange, 3, "#0000FF", "")], 1, 2);
  }

  /** A timeline referring only to extruders 3, 4, 5 is untouched by a swap of
      1 and 2. */
  method SwapWithoutMatches() returns (r: seq<Item>)
    ensures Extruders(r) == [3, 4, 5]
    ensures r == [Item(1.0, ColorChange, 3, "", ""),
                  Item(2.0, ToolChange, 4, "", ""),
                  Item(3.0, ColorChange, 5, "", "")]
  {
    r := SwapCustomGCodeExtruders([Item(1.0, ColorChange, 3, "", ""),
                                   Item(2.0, ToolChange, 4, "", ""),
                                   Item(3.0, ColorChange, 5, "", "")], 1, 2);
  }
}
