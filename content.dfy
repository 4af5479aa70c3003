/**
 * The volume and component quantities held by a well. Several wells may share
 * one WellContent object (the positions of a trough), so the content is an
 * object of its own rather than fields of the well.
 */
module Content {
  import opened Errors
  import opened Seqs
  import opened Quantities

  /** The value of a content at one moment, as WellContent.to_dict() exposes it. */
  datatype Snapshot = Snapshot(volume: real, quantities: Dict)

  /**
   * WellContent.concentration on a snapshot: `default` when the content holds
   * no component or no volume (so it never divides by zero) or lacks the
   * component; otherwise the quantity divided by the volume. Without a
   * component it reads the first component inserted.
   */
  function ConcentrationOf(s: Snapshot, component: Option<string>, default: real): (c: real)
    ensures s.quantities.keys == [] || s.volume == 0.0 ==> c == default
    ensures component.Some? && component.value !in s.quantities.amounts ==> c == default
    ensures s.volume != 0.0 && component.Some? && component.value in s.quantities.amounts ==>
      c * s.volume == s.quantities.amounts[component.value]
    ensures s.volume != 0.0 && component.None? && s.quantities.keys != [] ==>
      c * s.volume == s.quantities.amounts[s.quantities.keys[0]]
  {
    if s.quantities.keys == [] then default
    else if s.volume == 0.0 then default
    else
      var k := if component.None? then s.quantities.keys[0] else component.value;
      if k !in s.quantities.amounts then default
      else 1.0 * s.quantities.amounts[k] / s.volume
  }

  /** The component names in Python's string order: a sorted permutation of the keys. */
  function SortedComponents(q: Dict): (names: seq<string>)
    ensures multiset(names) == multiset(q.keys)
    ensures SortedBy(names, Identity)
  {
    SortByMultiset(q.keys, Identity);
    SortBySorted(q.keys, Identity);
    SortBy(q.keys, Identity)
  }

  function Identity(s: string): string {
    s
  }

  class WellContent {
    var volume: real
    var quantities: Dict

    /** A missing quantities dict starts empty; a content made with no arguments holds nothing. */
    constructor (quantities: Option<Dict>, volume: real)
      ensures this.volume == volume
      ensures this.quantities == if quantities.Some? then quantities.value else Empty()
    {
      this.volume := volume;
      this.quantities := if quantities.Some? then quantities.value else Empty();
    }

    /** to_dict(): exactly the current volume and quantities. */
    function ToDict(): (s: Snapshot)
      reads this
      ensures s.volume == volume && s.quantities == quantities
    {
      Snapshot(volume, quantities)
    }

    /**
     * concentration(): the amount of the component (by default the first one
     * listed) per unit of volume, or the default when there is nothing to
     * divide.
     */
    function Concentration(component: Option<string>, default: real): (c: real)
      reads this
      ensures quantities.keys == [] || volume == 0.0 ==> c == default
      ensures component.Some? && component.value !in quantities.amounts ==> c == default
      ensures volume != 0.0 && component.Some? && component.value in quantities.amounts ==>
        c * volume == quantities.amounts[component.value]
      ensures volume != 0.0 && component.None? && quantities.keys != [] ==>
        c * volume == quantities.amounts[quantities.keys[0]]
    {
      ConcentrationOf(ToDict(), component, default)
    }

    /** make_empty(): no volume and no components. */
    method MakeEmpty()
      modifies this
      ensures volume == 0.0 && quantities == Empty()
    {
      volume := 0.0;
      quantities := Empty();
    }

    /** components_as_string(): the sorted component names joined by the separator. */
    function ComponentsAsString(separator: string): (s: string)
      reads this
      ensures quantities.keys == [] ==> s == ""
      ensures exists names :: multiset(names) == multiset(quantities.keys) && SortedBy(names, Identity) && s == Join(names, separator)
    {
      Join(SortedComponents(quantities), separator)
    }
  }

  /** {"Compound_1": 5, "Compound_2": 10}, in that insertion order. */
  function TwoCompounds(): (d: Dict)
    ensures d.keys == ["Compound_1", "Compound_2"]
  {
    RawDict(["Compound_1", "Compound_2"], map["Compound_1" := 5.0, "Compound_2" := 10.0])
  }

  /** The concentrations read from the contents the source's tests build. */
  method ConcentrationScenario() returns (empty: real, noVolume: real, first: real, one: real, two: real, absent: real)
    ensures empty == 0.0 && noVolume == 0.0
    ensures first == 0.2 && one == 0.2 && two == 0.4 && absent == 0.0
  {
    var blank := new WellContent(None, 0.0);
    empty := blank.Concentration(None, 0.0);
    var dry := new WellContent(Some(RawDict(["Compound_1"], map["Compound_1" := 5.0])), 0.0);
    noVolume := dry.Concentration(None, 0.0);
    var mix := new WellContent(Some(TwoCompounds()), 25.0);
    first := mix.Concentration(None, 0.0);
    one := mix.Concentration(Some("Compound_1"), 0.0);
    two := mix.Concentration(Some("Compound_2"), 0.0);
    absent := mix.Concentration(Some("Compound_3"), 0.0);
  }

  /** Two components already in order are listed in that order. */
  lemma OrderedPairAsString(q: Dict, separator: string)
    requires |q.keys| == 2 && LexLe(q.keys[0], q.keys[1])
    ensures Join(SortedComponents(q), separator) == q.keys[0] + separator + q.keys[1]
  {
    var a, b := q.keys[0], q.keys[1];
    assert SortedBy(q.keys, Identity);
    SortByOfSorted(q.keys, Identity);
    assert SortedComponents(q) == [a, b];
    assert [a, b][1..] == [b];
    assert Join([b], separator) == b;
  }

  lemma CompoundOrder()
    ensures LexLe("Compound_1", "Compound_2")
  {
    LexLeCommonPrefix("Compound_", "1", "2");
    assert "Compound_1" == "Compound_" + "1" && "Compound_2" == "Compound_" + "2";
  }

  /** The test mix, holding "Compound_1" then "Compound_2", lists them in that order, separated by a space. */
  lemma TestMixOrder(q: Dict)
    requires q.keys == TwoCompounds().keys
    ensures Join(SortedComponents(q), " ") == q.keys[0] + " " + q.keys[1]
  {
    CompoundOrder();
    OrderedPairAsString(q, " ");
  }
}
