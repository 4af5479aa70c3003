/**
 * A transfer of liquid from a source well to a destination well. Applying it
 * checks, before touching anything, that the source holds liquid, that it
 * holds enough, and that the destination has room; it then moves the same
 * fraction of every component of the source, together with the volume, and
 * records itself among the destination's sources.
 */
module Transfers {
  import opened Errors
  import opened Seqs
  import opened Quantities
  import opened Content
  import opened Containers

  /** The contents of the source and of the destination after a transfer. */
  datatype Moved = Moved(source: Snapshot, destination: Snapshot)

  /** The quantities that leave the source: each component scaled by the fraction of the volume taken. */
  function Portion(src: Snapshot, volume: real): (moved: Dict)
    requires src.volume != 0.0
    ensures moved.keys == src.quantities.keys && moved.amounts.Keys == src.quantities.amounts.Keys
    ensures forall k :: Get(moved, k) == Get(src.quantities, k) * (volume / src.volume)
  {
    Scale(src.quantities, volume / src.volume)
  }

  /**
   * Transfer.apply on content values. `shared` says that source and
   * destination are one content (two positions of a trough, or a well
   * transferring into itself): the portion is then added to it and taken
   * back from it.
   */
  function ApplyToContents(src: Snapshot, dst: Snapshot, shared: bool, volume: real, capacity: Option<real>): (r: Result<Moved>)
    requires shared ==> src == dst
    ensures r.Failure? ==> r.error == TransferError
    ensures r.Success? && shared ==> r.value.source == r.value.destination
  {
    if src.volume == 0.0 then Failure(TransferError)
    else if volume > src.volume then Failure(TransferError)
    else if capacity.Some? && dst.volume + volume > capacity.value then Failure(TransferError)
    else
      var moved := Portion(src, volume);
      AddToContentEffect(dst, moved, Some(volume), "L", capacity);
      var added := AddToContent(dst, moved, Some(volume), "L", capacity).value;
      var taken := SubtractFromContent(if shared then added else src, moved, volume).after;
      if shared then Success(Moved(taken, taken)) else Success(Moved(taken, added))
  }

  /** A transfer fails exactly when the source is empty, holds less than the volume, or the destination would overflow. */
  lemma TransferFails(src: Snapshot, dst: Snapshot, shared: bool, volume: real, capacity: Option<real>)
    requires shared ==> src == dst
    ensures ApplyToContents(src, dst, shared, volume, capacity).Failure? <==>
      src.volume == 0.0 || volume > src.volume || (capacity.Some? && dst.volume + volume > capacity.value)
  {
  }

  /**
   * Once the checks pass, neither step can fail: the destination has room for
   * the volume, and the source holds the volume and every component of the
   * portion, so the subtraction runs to completion.
   */
  lemma TransferCompletes(src: Snapshot, dst: Snapshot, shared: bool, volume: real, capacity: Option<real>)
    requires shared ==> src == dst
    requires src.volume != 0.0 && volume <= src.volume
    requires !(capacity.Some? && dst.volume + volume > capacity.value)
    ensures AddToContent(dst, Portion(src, volume), Some(volume), "L", capacity).Success?
    ensures var added := AddToContent(dst, Portion(src, volume), Some(volume), "L", capacity).value;
      SubtractFromContent(if shared then added else src, Portion(src, volume), volume).outcome == Ok
  {
    var moved := Portion(src, volume);
    AddToContentEffect(dst, moved, Some(volume), "L", capacity);
    var added := AddToContent(dst, moved, Some(volume), "L", capacity).value;
    var from := if shared then added else src;
    SubtractFromContentEffect(from, moved, volume);
    forall k | k in moved.amounts ensures k in from.quantities.amounts {
      assert k in moved.keys;
    }
  }

  /** The two contents a transfer between different contents leaves: the portion added to the destination, taken from the source. */
  lemma TransferSteps(src: Snapshot, dst: Snapshot, volume: real, capacity: Option<real>)
    requires ApplyToContents(src, dst, false, volume, capacity).Success?
    ensures src.volume != 0.0 && volume <= src.volume
    ensures var m := ApplyToContents(src, dst, false, volume, capacity).value;
      var moved := Portion(src, volume);
      m.destination == AddToContent(dst, moved, Some(volume), "L", capacity).value &&
      SubtractFromContent(src, moved, volume) == Attempt(Ok, m.source)
  {
    TransferCompletes(src, dst, false, volume, capacity);
  }

  /**
   * Between two different contents a transfer of `volume` with
   * f = volume / source volume adds q * f of every component q of the source
   * to the destination.
   */
  lemma TransferFillsDestination(src: Snapshot, dst: Snapshot, volume: real, capacity: Option<real>)
    requires ApplyToContents(src, dst, false, volume, capacity).Success?
    ensures var m := ApplyToContents(src, dst, false, volume, capacity).value;
      (forall k :: Get(m.destination.quantities, k) == Get(dst.quantities, k) + Get(src.quantities, k) * (volume / src.volume)) &&
      (forall k :: k in m.destination.quantities.amounts <==> k in dst.quantities.amounts || k in src.quantities.amounts)
  {
    TransferSteps(src, dst, volume, capacity);
    PortionAdded(src, dst, volume, capacity);
  }

  /** The destination side of a transfer: the portion of the source added to the destination. */
  lemma PortionAdded(src: Snapshot, dst: Snapshot, volume: real, capacity: Option<real>)
    requires src.volume != 0.0
    requires AddToContent(dst, Portion(src, volume), Some(volume), "L", capacity).Success?
    ensures var sum := AddToContent(dst, Portion(src, volume), Some(volume), "L", capacity).value.quantities;
      (forall k :: Get(sum, k) == Get(dst.quantities, k) + Get(src.quantities, k) * (volume / src.volume)) &&
      (forall k :: k in sum.amounts <==> k in dst.quantities.amounts || k in src.quantities.amounts)
  {
    var moved := Portion(src, volume);
    AddedQuantities(dst, moved, volume, capacity);
    AddedPortion(dst.quantities, src.quantities, moved, volume / src.volume);
  }

  /** Adding the portion q * f of every component q of `src` to `dst`, on the dicts alone. */
  lemma AddedPortion(dst: Dict, src: Dict, moved: Dict, f: real)
    requires moved.amounts.Keys == src.amounts.Keys && forall k :: Get(moved, k) == Get(src, k) * f
    ensures forall k :: Get(AddAll(dst, moved), k) == Get(dst, k) + Get(src, k) * f
    ensures forall k :: k in AddAll(dst, moved).amounts <==> k in dst.amounts || k in src.amounts
  {
    AddAllEffect(dst, moved);
  }

  /** What add_content does to the quantities when it succeeds: every item added. */
  lemma AddedQuantities(s: Snapshot, c: Dict, volume: real, capacity: Option<real>)
    requires AddToContent(s, c, Some(volume), "L", capacity).Success?
    ensures AddToContent(s, c, Some(volume), "L", capacity).value.quantities == AddAll(s.quantities, c)
  {
  }

  /**
   * Between two different contents a transfer of `volume` with
   * f = volume / source volume leaves q * (1 - f) of every component q in the
   * source. A component leaves the source when nothing of it is left by
   * exact comparison: when it was stored with amount 0, or when the whole
   * volume is taken.
   */
  lemma TransferDrainsSource(src: Snapshot, dst: Snapshot, volume: real, capacity: Option<real>)
    requires ApplyToContents(src, dst, false, volume, capacity).Success?
    ensures var m := ApplyToContents(src, dst, false, volume, capacity).value;
      (forall k :: k in m.source.quantities.amounts <==>
        k in src.quantities.amounts && src.quantities.amounts[k] != 0.0 && volume != src.volume) &&
      (forall k | k in m.source.quantities.amounts ::
        m.source.quantities.amounts[k] == src.quantities.amounts[k] * (1.0 - volume / src.volume))
  {
    TransferSteps(src, dst, volume, capacity);
    TransferCompletes(src, dst, false, volume, capacity);
    Remainder(src, volume);
  }

  /** What subtracting its portion leaves of a content: each amount times 1 - f, the used-up ones popped. */
  lemma Remainder(src: Snapshot, volume: real)
    requires src.volume != 0.0
    requires SubtractFromContent(src, Portion(src, volume), volume).outcome == Ok
    ensures var after := SubtractFromContent(src, Portion(src, volume), volume).after.quantities;
      (forall k :: k in after.amounts <==>
        k in src.quantities.amounts && src.quantities.amounts[k] != 0.0 && volume != src.volume) &&
      (forall k | k in after.amounts :: after.amounts[k] == src.quantities.amounts[k] * (1.0 - volume / src.volume))
  {
    var f := volume / src.volume;
    var moved := Portion(src, volume);
    SubtractFromContentEffect(src, moved, volume);
    WholeFraction(volume, src.volume, f);
    var after := SubtractFromContent(src, moved, volume).after.quantities;
    RemainderOf(src.quantities, moved, after, f);
  }

  /** Remainder on the dicts alone: each amount q less its part q * f. */
  lemma RemainderOf(q: Dict, moved: Dict, after: Dict, f: real)
    requires moved.amounts.Keys == q.amounts.Keys && forall k :: Get(moved, k) == Get(q, k) * f
    requires forall k :: k in after.amounts <==> k in q.amounts && !(k in moved.amounts && q.amounts[k] == moved.amounts[k])
    requires forall k | k in after.amounts :: after.amounts[k] == q.amounts[k] - Get(moved, k)
    ensures forall k :: k in after.amounts <==> k in q.amounts && q.amounts[k] != 0.0 && f != 1.0
    ensures forall k | k in after.amounts :: after.amounts[k] == q.amounts[k] * (1.0 - f)
  {
    forall k ensures (k in after.amounts <==> k in q.amounts && q.amounts[k] != 0.0 && f != 1.0) &&
      (k in after.amounts ==> after.amounts[k] == q.amounts[k] * (1.0 - f))
    {
      RemainderAt(q, moved, after, f, k);
    }
  }

  /** Remainder for one component: its amount q less its part q * f. */
  lemma RemainderAt(q: Dict, moved: Dict, after: Dict, f: real, k: string)
    requires moved.amounts.Keys == q.amounts.Keys && Get(moved, k) == Get(q, k) * f
    requires k in after.amounts <==> k in q.amounts && !(k in moved.amounts && q.amounts[k] == moved.amounts[k])
    requires k in after.amounts ==> after.amounts[k] == q.amounts[k] - Get(moved, k)
    ensures k in after.amounts <==> k in q.amounts && q.amounts[k] != 0.0 && f != 1.0
    ensures k in after.amounts ==> after.amounts[k] == q.amounts[k] * (1.0 - f)
  {
    if k in q.amounts {
      ScaledPart(q.amounts[k], f, moved.amounts[k]);
    }
  }

  /** The fraction taken is 1 exactly when the whole volume is taken. */
  lemma WholeFraction(volume: real, v: real, f: real)
    requires v != 0.0 && f == volume / v
    ensures f == 1.0 <==> volume == v
  {
    assert v * f == volume;
  }

  /** Taking the part q * f of q leaves q * (1 - f), which is 0 exactly when q is 0 or f is 1. */
  lemma ScaledPart(q: real, f: real, part: real)
    requires part == q * f
    ensures q - part == q * (1.0 - f)
    ensures q == part <==> q == 0.0 || f == 1.0
  {
    assert q - part == q * (1.0 - f);
    if q != 0.0 && f != 1.0 {
      assert q * (1.0 - f) != 0.0;
    }
  }

  /**
   * A transfer between different contents conserves every component: what
   * the source loses of it, the destination gains.
   */
  lemma TransferConservesComponents(src: Snapshot, dst: Snapshot, volume: real, capacity: Option<real>)
    requires ApplyToContents(src, dst, false, volume, capacity).Success?
    ensures var m := ApplyToContents(src, dst, false, volume, capacity).value;
      forall k :: Get(m.source.quantities, k) + Get(m.destination.quantities, k) == Get(src.quantities, k) + Get(dst.quantities, k)
  {
    TransferSteps(src, dst, volume, capacity);
    var moved := Portion(src, volume);
    AddToContentEffect(dst, moved, Some(volume), "L", capacity);
    SubtractFromContentEffect(src, moved, volume);
    var after := SubtractFromContent(src, moved, volume).after.quantities;
    forall k ensures Get(after, k) == Get(src.quantities, k) - Get(moved, k) {
      if k in src.quantities.amounts {
        assert k in moved.amounts.Keys;
      } else {
        assert k !in moved.amounts.Keys;
      }
    }
  }

  /**
   * A transfer between different contents conserves the total volume: a
   * positive volume leaves the source and enters the destination, any other
   * moves no liquid. A destination within its capacity stays within it.
   */
  lemma TransferConservesVolume(src: Snapshot, dst: Snapshot, volume: real, capacity: Option<real>)
    requires ApplyToContents(src, dst, false, volume, capacity).Success?
    ensures var m := ApplyToContents(src, dst, false, volume, capacity).value;
      m.source.volume + m.destination.volume == src.volume + dst.volume &&
      (volume > 0.0 ==> m.source.volume == src.volume - volume && m.destination.volume == dst.volume + volume) &&
      (volume <= 0.0 ==> m.source.volume == src.volume && m.destination.volume == dst.volume) &&
      (capacity.Some? && dst.volume <= capacity.value ==> m.destination.volume <= capacity.value)
  {
    TransferSteps(src, dst, volume, capacity);
    var moved := Portion(src, volume);
    AddToContentEffect(dst, moved, Some(volume), "L", capacity);
    SubtractFromContentEffect(src, moved, volume);
  }

  /** Transferring the whole volume of a source empties it: no component is left and, for a positive volume, no liquid. */
  lemma TransferEmptiesSource(src: Snapshot, dst: Snapshot, capacity: Option<real>)
    requires ApplyToContents(src, dst, false, src.volume, capacity).Success?
    ensures var m := ApplyToContents(src, dst, false, src.volume, capacity).value;
      m.source.quantities.amounts == map[] && (src.volume > 0.0 ==> m.source.volume == 0.0)
  {
    TransferDrainsSource(src, dst, src.volume, capacity);
    TransferConservesVolume(src, dst, src.volume, capacity);
    var m := ApplyToContents(src, dst, false, src.volume, capacity).value;
    assert forall k :: k !in m.source.quantities.amounts;
  }

  /**
   * Taking part of the liquid of a source leaves its concentrations as they
   * were: what remains of each component is in proportion to what remains of
   * the volume. The exception is a component stored with amount 0: the
   * subtraction pops it, and its concentration falls back to the default.
   */
  lemma TransferKeepsSourceConcentration(src: Snapshot, dst: Snapshot, volume: real, capacity: Option<real>, k: string, default: real)
    requires ApplyToContents(src, dst, false, volume, capacity).Success?
    requires 0.0 < volume < src.volume
    ensures var m := ApplyToContents(src, dst, false, volume, capacity).value;
      if k in src.quantities.amounts && src.quantities.amounts[k] == 0.0
      then ConcentrationOf(m.source, Some(k), default) == default
      else ConcentrationOf(m.source, Some(k), default) == ConcentrationOf(src, Some(k), default)
  {
    TransferDrainsSource(src, dst, volume, capacity);
    TransferConservesVolume(src, dst, volume, capacity);
    RemainderConcentration(src, ApplyToContents(src, dst, false, volume, capacity).value.source, volume, k, default);
  }

  /** The concentration argument of TransferKeepsSourceConcentration, on the remaining content alone. */
  lemma RemainderConcentration(src: Snapshot, left: Snapshot, volume: real, k: string, default: real)
    requires 0.0 < volume < src.volume && left.volume == src.volume - volume
    requires forall k :: k in left.quantities.amounts <==>
      k in src.quantities.amounts && src.quantities.amounts[k] != 0.0 && volume != src.volume
    requires forall k | k in left.quantities.amounts ::
      left.quantities.amounts[k] == src.quantities.amounts[k] * (1.0 - volume / src.volume)
    ensures if k in src.quantities.amounts && src.quantities.amounts[k] == 0.0
      then ConcentrationOf(left, Some(k), default) == default
      else ConcentrationOf(left, Some(k), default) == ConcentrationOf(src, Some(k), default)
  {
    var f := volume / src.volume;
    PartLeft(src.volume, volume, f);
    if k in src.quantities.amounts && src.quantities.amounts[k] != 0.0 {
      ScaledConcentration(src, left, k, 1.0 - f, default);
    }
  }

  /** Taking `volume` out of `v` with 0 < volume < v leaves the fraction 1 - f, f = volume / v strictly between 0 and 1. */
  lemma PartLeft(v: real, volume: real, f: real)
    requires 0.0 < volume < v && f == volume / v
    ensures 0.0 < f < 1.0 && v - volume == v * (1.0 - f)
  {
    assert v * f == volume;
    assert v * (1.0 - f) == v - v * f;
    if f >= 1.0 {
      MulMono(v, 1.0, f);
    }
    if f <= 0.0 {
      MulMono(v, f, 0.0);
    }
  }

  lemma MulMono(v: real, a: real, b: real)
    requires v > 0.0 && a <= b
    ensures v * a <= v * b
  {
    assert v * b - v * a == v * (b - a);
  }

  /** Scaling the amount of a component and the volume by the same non-zero factor keeps its concentration. */
  lemma ScaledConcentration(s: Snapshot, t: Snapshot, k: string, g: real, default: real)
    requires s.volume != 0.0 && g != 0.0 && t.volume == s.volume * g
    requires k in s.quantities.amounts && k in t.quantities.amounts
    requires t.quantities.amounts[k] == s.quantities.amounts[k] * g
    ensures ConcentrationOf(t, Some(k), default) == ConcentrationOf(s, Some(k), default)
  {
    var c, c2 := ConcentrationOf(s, Some(k), default), ConcentrationOf(t, Some(k), default);
    assert c * s.volume == s.quantities.amounts[k];
    assert c2 * (s.volume * g) == s.quantities.amounts[k] * g;
    assert (c2 - c) * s.volume * g == 0.0;
  }

  /**
   * Filling an empty destination that has no components gives it the
   * concentrations of the source.
   */
  lemma TransferIntoEmpty(src: Snapshot, dst: Snapshot, volume: real, capacity: Option<real>, k: string, default: real)
    requires ApplyToContents(src, dst, false, volume, capacity).Success?
    requires dst.volume == 0.0 && dst.quantities.amounts == map[] && volume > 0.0
    ensures var m := ApplyToContents(src, dst, false, volume, capacity).value;
      ConcentrationOf(m.destination, Some(k), default) == ConcentrationOf(src, Some(k), default)
  {
    TransferFillsDestination(src, dst, volume, capacity);
    TransferConservesVolume(src, dst, volume, capacity);
    FilledConcentration(src, ApplyToContents(src, dst, false, volume, capacity).value.destination, volume, k, default);
  }

  /** The concentration argument of TransferIntoEmpty, on the filled content alone. */
  lemma FilledConcentration(src: Snapshot, filled: Snapshot, volume: real, k: string, default: real)
    requires src.volume != 0.0 && volume > 0.0 && filled.volume == volume
    requires forall k :: k in filled.quantities.amounts <==> k in src.quantities.amounts
    requires forall k :: Get(filled.quantities, k) == Get(src.quantities, k) * (volume / src.volume)
    ensures ConcentrationOf(filled, Some(k), default) == ConcentrationOf(src, Some(k), default)
  {
    var f := volume / src.volume;
    assert src.volume * f == volume;
    if k in src.quantities.amounts {
      assert filled.quantities.amounts[k] == Get(filled.quantities, k);
      ScaledConcentration(src, filled, k, f, default);
    }
  }

  /**
   * A transfer within one content adds the portion and takes it back: the
   * volume and the amount of every component are as before; only components
   * whose amount was 0 may leave the dict.
   */
  lemma SharedTransferKeepsContent(s: Snapshot, volume: real, capacity: Option<real>)
    requires ApplyToContents(s, s, true, volume, capacity).Success?
    ensures var m := ApplyToContents(s, s, true, volume, capacity).value;
      m.source == m.destination && m.source.volume == s.volume &&
      (forall k :: Get(m.source.quantities, k) == Get(s.quantities, k)) &&
      (forall k :: k in m.source.quantities.amounts <==> k in s.quantities.amounts && s.quantities.amounts[k] != 0.0)
  {
    var moved := Portion(s, volume);
    TransferCompletes(s, s, true, volume, capacity);
    AddToContentEffect(s, moved, Some(volume), "L", capacity);
    var added := AddToContent(s, moved, Some(volume), "L", capacity).value;
    SubtractFromContentEffect(added, moved, volume);
    AddThenSubtract(s.quantities, moved);
    forall k ensures k in moved.amounts <==> k in s.quantities.amounts {
      assert k in moved.keys <==> k in s.quantities.keys;
    }
  }

  /** One unit of "Compound_1". */
  function OneCompound(): Dict {
    RawDict(["Compound_1"], map["Compound_1" := 1.0])
  }

  /** Adding one unit of "Compound_1" with 5 uL to an empty well leaves 5 uL holding it. */
  lemma ScenarioFirstFilling()
    ensures AddToContent(Snapshot(0.0, Empty()), OneCompound(), Some(0.000005), "L", None) ==
      Success(Snapshot(0.000005, OneCompound()))
  {
    var k, one := "Compound_1", OneCompound();
    assert AddItems(Empty(), one, 0) == Empty();
    assert AddAll(Empty(), one) == AddOne(Empty(), k, 1.0);
    assert AddOne(Empty(), k, 1.0) == Set(Empty(), k, 1.0);
    assert Set(Empty(), k, 1.0).keys == [k];
    assert Set(Empty(), k, 1.0).amounts == map[k := 1.0];
  }

  /** Adding one more unit with 25 uL leaves 30 uL holding 2 units. */
  lemma ScenarioSecondFilling()
    ensures AddToContent(Snapshot(0.000005, OneCompound()), OneCompound(), Some(0.000025), "L", None) ==
      Success(Snapshot(0.00003, RawDict(["Compound_1"], map["Compound_1" := 2.0])))
  {
    var k, one := "Compound_1", OneCompound();
    assert AddItems(one, one, 0) == one;
    assert AddAll(one, one) == AddOne(one, k, 1.0);
    assert AddOne(one, k, 1.0) == Set(one, k, 2.0);
    assert Set(one, k, 2.0).amounts == map[k := 2.0];
  }

  /**
   * The transfer of 25 uL from well A1 of "Source_2" into well B2 of
   * "Destination_2": refused from an empty source, refused while the source
   * holds 5 uL, refused again once it holds 30 uL but the destination only
   * takes 3 uL, and done once the destination takes 50 uL, leaving 25 uL in
   * the destination.
   */
  lemma TransferScenario()
    ensures var empty := Snapshot(0.0, Empty());
      var twice := Snapshot(0.00003, RawDict(["Compound_1"], map["Compound_1" := 2.0]));
      ApplyToContents(empty, empty, false, 0.000025, None).Failure? &&
      ApplyToContents(Snapshot(0.000005, OneCompound()), empty, false, 0.000025, None).Failure? &&
      ApplyToContents(twice, empty, false, 0.000025, Some(0.000003)).Failure? &&
      ApplyToContents(twice, empty, false, 0.000025, Some(0.00005)).Success? &&
      ApplyToContents(twice, empty, false, 0.000025, Some(0.00005)).value.destination.volume == 0.000025
  {
    var twice := Snapshot(0.00003, RawDict(["Compound_1"], map["Compound_1" := 2.0]));
    TransferConservesVolume(twice, Snapshot(0.0, Empty()), 0.000025, Some(0.00005));
  }

  /**
   * The sources list after a transfer records itself: the transfer is added
   * at the end unless it is already there.
   */
  function Recorded(sources: seq<Source>, t: Transfer): (r: seq<Source>)
    ensures sources <= r && OtherSource(t) in r
    ensures multiset(r)[OtherSource(t)] == if OtherSource(t) in sources then multiset(sources)[OtherSource(t)] else 1
  {
    if OtherSource(t) in sources then sources else sources + [OtherSource(t)]
  }

  /** Recording a transfer twice records it once. */
  lemma RecordedIdempotent(sources: seq<Source>, t: Transfer)
    ensures Recorded(Recorded(sources, t), t) == Recorded(sources, t)
    ensures |Recorded(sources, t)| <= |sources| + 1
  {
  }

  /** The name a plate shows in a plain string: its name, or None. */
  function PlateName(p: Plate): string {
    if p.name.Some? then p.name.value else "None"
  }

  class Transfer {
    const source: Well
    const destination: Well
    /** In liters. */
    const volume: real
    const data: Option<WellData>

    constructor (source: Well, destination: Well, volume: real, data: Option<WellData>)
      ensures this.source == source && this.destination == destination
      ensures this.volume == volume && this.data == data
    {
      this.source := source;
      this.destination := destination;
      this.volume := volume;
      this.data := data;
    }

    /** with_new_volume: a new transfer between the same wells with the same data; this one is left as it is. */
    method WithNewVolume(newVolume: real) returns (t: Transfer)
      ensures fresh(t) && t.source == source && t.destination == destination
      ensures t.volume == newVolume && t.data == data
    {
      t := new Transfer(source, destination, newVolume, data);
    }

    /**
     * to_plain_string: "Transfer <volume>L from <plate> <well> into <plate>
     * <well>". `format` renders the volume as "%.02E" does.
     */
    function ToPlainString(format: real -> string): (s: string)
      ensures |s| >= 9 && s[..9] == "Transfer "
      ensures |s| >= |destination.name| && s[|s| - |destination.name|..] == destination.name
    {
      "Transfer " + format(volume) + "L from " + PlateName(source.plate) + " " + source.name +
      " into " + PlateName(destination.plate) + " " + destination.name
    }

    /**
     * apply: the three checks, then the portion added to the destination and
     * taken from the source, then the transfer recorded among the
     * destination's sources. A refused transfer changes nothing.
     */
    method Apply() returns (outcome: Outcome)
      modifies source.content, destination.content, destination`sources
      ensures var r := ApplyToContents(old(source.content.ToDict()), old(destination.content.ToDict()),
          source.content == destination.content, volume, destination.capacity);
        (r.Failure? ==>
          outcome == Err(r.error) && destination.sources == old(destination.sources) &&
          source.content.ToDict() == old(source.content.ToDict()) &&
          destination.content.ToDict() == old(destination.content.ToDict())) &&
        (r.Success? ==>
          outcome == Ok && destination.sources == Recorded(old(destination.sources), this) &&
          source.content.ToDict() == r.value.source && destination.content.ToDict() == r.value.destination)
    {
      if source.IsEmpty() {
        return Err(TransferError);
      }
      if volume > source.Volume() {
        return Err(TransferError);
      }
      var finalVolume := destination.Volume() + volume;
      if destination.capacity.Some? && finalVolume > destination.capacity.value {
        return Err(TransferError);
      }
      ghost var src, dst := source.content.ToDict(), destination.content.ToDict();
      ghost var shared := source.content == destination.content;
      var moved := Scale(source.content.quantities, volume / source.Volume());
      assert moved == Portion(src, volume);
      TransferCompletes(src, dst, shared, volume, destination.capacity);
      var added := destination.AddContent(moved, Some(volume), "L");
      assert added == Ok;
      var taken := source.SubtractContent(moved, volume);
      assert taken == Ok;
      if OtherSource(this) !in destination.sources {
        destination.sources := destination.sources + [OtherSource(this)];
      }
      return Ok;
    }
  }

  /** The plain string of 25 uL from well A1 of plate "Source" into well B2 of plate "Destination". */
  lemma PlainStringExample(t: Transfer, format: real -> string)
    requires t.source.plate.name == Some("Source") && t.source.name == "A1"
    requires t.destination.plate.name == Some("Destination") && t.destination.name == "B2"
    requires t.volume == 0.000025 && format(0.000025) == "2.50E-05"
    ensures t.ToPlainString(format) == "Transfer 2.50E-05L from Source A1 into Destination B2"
  {
    var head := "Transfer " + format(t.volume) + "L from ";
    assert head == "Transfer 2.50E-05L from ";
    var fromPart := head + PlateName(t.source.plate) + " " + t.source.name;
    assert fromPart == "Transfer 2.50E-05L from Source A1";
    var intoPart := fromPart + " into " + PlateName(t.destination.plate);
    assert intoPart == "Transfer 2.50E-05L from Source A1 into Destination";
  }
}
