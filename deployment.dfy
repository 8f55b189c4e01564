/** Deployment quotas and the one-time population of the menu grid: which cell
    receives which unit request, and how many units the grid ends up holding. */
module Deployment {
  import opened Geometry

  /** Quota entries: 3 faction slots times 8 unit kinds. */
  const UnitTypes: int := 24
  const UnitsPerFaction: int := 8

  datatype Option<T> = None | Some(value: T)

  /** A unit as requested from the controlling faction:
      `newUnit(factionSlot, unitSlot, x, y)`. */
  datatype Unit = Unit(factionSlot: int, unitSlot: int, x: int, y: int)

  /** The quota table the menu builds: per entry, the units the region holds
      minus those already deployed. */
  function Remaining(available: seq<int>, deployed: seq<int>): (quota: seq<int>)
    requires |available| >= UnitTypes && |deployed| >= UnitTypes
    ensures |quota| == UnitTypes
    ensures forall t :: 0 <= t < UnitTypes ==> (quota[t] > 0 <==> available[t] > deployed[t])
    ensures forall t :: 0 <= t < UnitTypes ==> quota[t] == available[t] - deployed[t]
  {
    seq(UnitTypes, t requires 0 <= t < UnitTypes => available[t] - deployed[t])
  }

  /** The quota entry of a (faction slot, unit kind) pair, as `canAddUnit` indexes it. */
  function SlotIndex(factionSlot: int, unitSlot: int): (t: int)
  {
    factionSlot * UnitsPerFaction + unitSlot
  }

  /** Splitting a quota entry into `t / 8` and `t % 8` names a valid pair
      that indexes the same entry. */
  lemma SlotIndexRoundTrip(t: int)
    requires 0 <= t < UnitTypes
    ensures 0 <= t / UnitsPerFaction < UnitTypes / UnitsPerFaction
    ensures 0 <= t % UnitsPerFaction < UnitsPerFaction
    ensures SlotIndex(t / UnitsPerFaction, t % UnitsPerFaction) == t
  {
  }

  /** What `newDeployMenu` puts into cell `p`, given the remaining quotas. The
      cell's option index doubles as its quota entry; a unit is requested only
      for an index below 24 whose quota is still positive. */
  function Placement(quota: seq<int>, p: Pos): (u: Option<Unit>)
    requires |quota| == UnitTypes && InBounds(p)
    ensures u.Some? <==> Encode(p) < UnitTypes && quota[Encode(p)] > 0
    ensures u.Some? ==> u.value.x == p.x && u.value.y == p.y
    ensures u.Some? ==> 1 <= u.value.factionSlot <= UnitTypes / UnitsPerFaction
                        && 0 <= u.value.unitSlot < UnitsPerFaction
                        && SlotIndex(u.value.factionSlot - 1, u.value.unitSlot) == Encode(p)
  {
    var option := p.x * Size + p.y;
    if option < UnitTypes && quota[SlotIndex(option / UnitsPerFaction, option % UnitsPerFaction)] > 0
    then Some(Unit(option / UnitsPerFaction + 1, option % UnitsPerFaction, p.x, p.y))
    else None
  }

  /** Whether a cell's content is a request for unit type `t`. */
  predicate RequestsType(u: Option<Unit>, t: int)
  {
    u.Some? && u.value.factionSlot == t / UnitsPerFaction + 1 && u.value.unitSlot == t % UnitsPerFaction
  }

  /** Every unit type with a positive quota is requested in exactly one cell:
      the cell its index decodes to. */
  lemma PlacementOfType(quota: seq<int>, t: int)
    requires |quota| == UnitTypes && 0 <= t < UnitTypes && quota[t] > 0
    ensures InBounds(Decode(t))
    ensures Placement(quota, Decode(t)) == Some(Unit(t / UnitsPerFaction + 1, t % UnitsPerFaction, t / Size, t % Size))
    ensures forall p :: InBounds(p) && RequestsType(Placement(quota, p), t) ==> p == Decode(t)
  {
    DecodeInBounds(t);
    EncodeDecode(t);
    SlotIndexRoundTrip(t);
    assert Decode(t) == Pos(t / Size, t % Size);
    forall p | InBounds(p) && RequestsType(Placement(quota, p), t)
      ensures p == Decode(t)
    {
      var u := Placement(quota, p).value;
      assert SlotIndex(u.factionSlot - 1, u.unitSlot) == Encode(p);
      assert Encode(p) == t;
      DecodeEncode(p);
    }
  }

  /** Number of option indices below `n` whose cell receives a unit. */
  function PlacedBelow(quota: seq<int>, n: nat): (count: nat)
    requires |quota| == UnitTypes && n <= Size * Size
  {
    if n == 0 then 0
    else
      DecodeInBounds(n - 1);
      PlacedBelow(quota, n - 1) + (if Placement(quota, Decode(n - 1)).Some? then 1 else 0)
  }

  /** Number of quota entries below `n` that are positive. */
  function PositiveBelow(quota: seq<int>, n: nat): (count: nat)
    requires n <= |quota|
  {
    if n == 0 then 0 else PositiveBelow(quota, n - 1) + (if quota[n - 1] > 0 then 1 else 0)
  }

  lemma {:induction false} PositiveBelowBound(quota: seq<int>, n: nat)
    requires n <= |quota|
    ensures PositiveBelow(quota, n) <= n
  {
    if n > 0 {
      PositiveBelowBound(quota, n - 1);
    }
  }

  lemma {:induction false} PlacedMatchesPositive(quota: seq<int>, n: nat)
    requires |quota| == UnitTypes && n <= UnitTypes
    ensures PlacedBelow(quota, n) == PositiveBelow(quota, n)
  {
    if n > 0 {
      PlacedMatchesPositive(quota, n - 1);
      DecodeInBounds(n - 1);
      EncodeDecode(n - 1);
    }
  }

  /** The populated grid holds exactly one unit per unit type with a positive
      quota, so never more than 24 units. */
  lemma PlacedCount(quota: seq<int>)
    requires |quota| == UnitTypes
    ensures PlacedBelow(quota, Size * Size) == PositiveBelow(quota, UnitTypes)
    ensures PlacedBelow(quota, Size * Size) <= UnitTypes
  {
    PlacedMatchesPositive(quota, UnitTypes);
    PositiveBelowBound(quota, UnitTypes);
    DecodeInBounds(UnitTypes);
    EncodeDecode(UnitTypes);
    assert Size * Size == UnitTypes + 1;
    assert !Placement(quota, Decode(UnitTypes)).Some?;
  }
}
