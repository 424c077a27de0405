/**
  The two-slot subtitle selection table and the two OSD subtitle slots, as values:
  the slot a track occupies (get_order) and what publishing into a slot does.
 */
module Slots {
  import opened SubTypes

  /** The first slot holding `t`, or -1 when no slot holds it. */
  function IndexOf(slots: seq<Track?>, t: Track?): (n: int)
    ensures -1 <= n < |slots|
    ensures n >= 0 ==> slots[n] == t && forall m :: 0 <= m < n ==> slots[m] != t
    ensures n == -1 <==> t !in slots
  {
    if slots == [] then -1
    else if slots[0] == t then 0
    else
      var k := IndexOf(slots[1..], t);
      if k < 0 then -1 else k + 1
  }

  /** osd_set_sub: store `d` in OSD slot `order`; an order outside the slots changes nothing. */
  function Publish(osd: seq<Decoder?>, order: int, d: Decoder?): (r: seq<Decoder?>)
    ensures |r| == |osd|
    ensures forall n :: 0 <= n < |osd| ==> r[n] == if n == order then d else osd[n]
  {
    if 0 <= order < |osd| then osd[order := d] else osd
  }

  /** The OSD slots after clearing, in track order, the slot `orders[k]` of every track `k`
      that had a decoder `decs[k]`. */
  function Cleared(osd: seq<Decoder?>, decs: seq<Decoder?>, orders: seq<int>): (r: seq<Decoder?>)
    requires |decs| == |orders|
    ensures |r| == |osd|
    ensures forall n :: 0 <= n < |r| ==> r[n] == null || r[n] == osd[n]
    decreases |decs|
  {
    if decs == [] then osd
    else
      var k := |decs| - 1;
      var before := Cleared(osd, decs[..k], orders[..k]);
      if decs[k] != null then Publish(before, orders[k], null) else before
  }

  /** A slot ends up empty exactly when some track with a decoder resolved to it;
      every other slot keeps its content. */
  lemma {:induction false} ClearedAt(osd: seq<Decoder?>, decs: seq<Decoder?>, orders: seq<int>, n: int)
    requires |decs| == |orders| && 0 <= n < |osd|
    ensures |Cleared(osd, decs, orders)| == |osd|
    ensures Cleared(osd, decs, orders)[n] ==
      if exists k :: 0 <= k < |decs| && decs[k] != null && orders[k] == n then null else osd[n]
    decreases |decs|
  {
    if decs != [] {
      var k := |decs| - 1;
      ClearedAt(osd, decs[..k], orders[..k], n);
      if decs[k] == null || orders[k] != n {
        if exists j :: 0 <= j < |decs| && decs[j] != null && orders[j] == n {
          var j :| 0 <= j < |decs| && decs[j] != null && orders[j] == n;
          assert j < k && decs[..k][j] != null && orders[..k][j] == n;
        }
      }
    }
  }
}
