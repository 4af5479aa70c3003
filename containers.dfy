/**
 * Wells and plates. A well checks a change of its content against its
 * capacity and its current volume before making it; a plate builds its grid
 * of wells once and answers queries about it; the built-in plate formats fix
 * the grid and the capacity of the wells.
 */
module Containers {
  import opened Errors
  import opened Seqs
  import opened Quantities
  import opened Content
  import opened Coordinates

  /** The free-form data dict of a well or a plate. */
  type WellData = map<string, string>

  // ---------------------------------------------------------------------------
  // Volume units
  // ---------------------------------------------------------------------------

  /** Every prefix ("", m, u, n) of every unit (g, l, L), with its factor to the base unit. */
  const UnitFactors: map<string, real> := map[
    "g" := 1.0, "mg" := 0.001, "ug" := 0.000001, "ng" := 0.000000001,
    "l" := 1.0, "ml" := 0.001, "ul" := 0.000001, "nl" := 0.000000001,
    "L" := 1.0, "mL" := 0.001, "uL" := 0.000001, "nL" := 0.000000001]

  /** A volume given in `unit`, in liters. */
  function ScaledVolume(volume: real, unit: string): (v: real)
    requires unit in UnitFactors
    ensures unit == "L" ==> v == volume
    ensures volume > 0.0 <==> v > 0.0
  {
    volume * UnitFactors[unit]
  }

  // ---------------------------------------------------------------------------
  // What add_content and subtract_content do to a content
  // ---------------------------------------------------------------------------

  /**
   * add_content on a content value. The volume is converted first: an unknown
   * unit raises KeyError, and a missing volume TypeError. A positive volume
   * that would bring the well over its capacity raises TransferError;
   * otherwise a positive volume is added and any other leaves the volume
   * alone. The quantities are added whatever the volume.
   */
  function AddToContent(s: Snapshot, components: Dict, volume: Option<real>, unit: string, capacity: Option<real>): (r: Result<Snapshot>)
    ensures r.Failure? ==> r.error == if unit !in UnitFactors then KeyError else if volume.None? then TypeError else TransferError
  {
    if unit !in UnitFactors then Failure(KeyError)
    else if volume.None? then Failure(TypeError)
    else
      var v := ScaledVolume(volume.value, unit);
      if v > 0.0 && capacity.Some? && s.volume + v > capacity.value then Failure(TransferError)
      else Success(Snapshot(if v > 0.0 then s.volume + v else s.volume, AddAll(s.quantities, components)))
  }

  /**
   * add_content succeeds exactly when the unit is known, a volume is given and
   * a positive volume fits the capacity; it then adds the positive volume,
   * adds every quantity to its component (a new component starting from 0),
   * keeps the components already there first, and never takes a well that was
   * within its capacity above it.
   */
  lemma AddToContentEffect(s: Snapshot, components: Dict, volume: Option<real>, unit: string, capacity: Option<real>)
    ensures AddToContent(s, components, volume, unit, capacity).Success? <==>
      unit in UnitFactors && volume.Some? &&
      !(volume.value > 0.0 && capacity.Some? && s.volume + ScaledVolume(volume.value, unit) > capacity.value)
    ensures var r := AddToContent(s, components, volume, unit, capacity);
      r.Success? ==>
        r.value.volume == s.volume + (if volume.value > 0.0 then ScaledVolume(volume.value, unit) else 0.0) &&
        (forall k :: Get(r.value.quantities, k) == Get(s.quantities, k) + Get(components, k)) &&
        (forall k :: k in r.value.quantities.amounts <==> k in s.quantities.amounts || k in components.amounts) &&
        s.quantities.keys <= r.value.quantities.keys &&
        (capacity.Some? && s.volume <= capacity.value ==> r.value.volume <= capacity.value)
  {
    AddAllEffect(s.quantities, components);
  }

  /** The outcome of an operation together with the state it leaves, which a failure may leave half-changed. */
  datatype Attempt = Attempt(outcome: Outcome, after: Snapshot)

  /**
   * subtract_content on a content value. A positive volume above the current
   * volume raises TransferError before anything changes; otherwise a positive
   * volume is taken off. Then each component is subtracted in turn, and the
   * first one the content does not hold raises KeyError, leaving the volume
   * and the components before it already subtracted.
   */
  function SubtractFromContent(s: Snapshot, components: Dict, volume: real): (r: Attempt)
    ensures r.outcome.Err? ==> r.outcome.error == TransferError || r.outcome.error == KeyError
  {
    if volume > 0.0 && volume > s.volume then Attempt(Err(TransferError), s)
    else
      var sub := SubtractAll(s.quantities, components);
      Attempt(if sub.complete then Ok else Err(KeyError),
              Snapshot(if volume > 0.0 then s.volume - volume else s.volume, sub.dict))
  }

  /**
   * subtract_content refuses a volume above the current one and then changes
   * nothing; it completes exactly when it may take the volume and every
   * component named is present; a completed subtraction takes off the volume,
   * removes each component whose stored amount was exactly the amount
   * subtracted, decreases the others, and never leaves a negative volume.
   */
  lemma SubtractFromContentEffect(s: Snapshot, components: Dict, volume: real)
    ensures var r := SubtractFromContent(s, components, volume);
      (r.outcome == Err(TransferError) <==> volume > 0.0 && volume > s.volume) &&
      (r.outcome == Err(TransferError) ==> r.after == s)
    ensures var r := SubtractFromContent(s, components, volume);
      r.outcome.Ok? <==> !(volume > 0.0 && volume > s.volume) && forall k | k in components.amounts :: k in s.quantities.amounts
    ensures var r := SubtractFromContent(s, components, volume);
      r.outcome.Ok? ==>
        r.after.volume == (if volume > 0.0 then s.volume - volume else s.volume) &&
        (s.volume >= 0.0 ==> r.after.volume >= 0.0) &&
        (forall k :: k in r.after.quantities.amounts <==>
          k in s.quantities.amounts && !(k in components.amounts && s.quantities.amounts[k] == components.amounts[k])) &&
        (forall k | k in r.after.quantities.amounts :: r.after.quantities.amounts[k] == s.quantities.amounts[k] - Get(components, k))
  {
    SubtractAllEffect(s.quantities, components);
  }

  // ---------------------------------------------------------------------------
  // Wells
  // ---------------------------------------------------------------------------

  /**
   * An entry of a well's provenance list: another well, or anything else (the
   * transfers that filled it).
   */
  datatype Source = WellSource(well: Well) | OtherSource(item: object)

  /** What a condition or a grouping key may look at in a well: its place, its data and its content. */
  datatype WellView = WellView(name: string, row: int, column: int, data: WellData, volume: real, quantities: Dict)

  class Well {
    const plate: Plate
    const row: int
    const column: int
    const name: string
    const data: WellData
    /** The content; the positions of a trough share one. */
    const content: WellContent
    /** The most the well holds, in liters; None means unlimited. */
    var capacity: Option<real>
    /** Where the content came from, oldest first. */
    var sources: seq<Source>

    /** A well with an empty content of its own and no provenance. */
    constructor (plate: Plate, row: int, column: int, name: string, data: WellData, capacity: Option<real>)
      ensures this.plate == plate && this.row == row && this.column == column && this.name == name
      ensures this.data == data && this.capacity == capacity && sources == []
      ensures fresh(content) && content.volume == 0.0 && content.quantities == Empty()
    {
      this.plate := plate;
      this.row := row;
      this.column := column;
      this.name := name;
      this.data := data;
      this.capacity := capacity;
      sources := [];
      content := new WellContent(None, 0.0);
    }

    /** A well that shares an existing content object (a trough position). */
    constructor Sharing(plate: Plate, row: int, column: int, name: string, data: WellData, capacity: Option<real>, content: WellContent)
      ensures this.plate == plate && this.row == row && this.column == column && this.name == name
      ensures this.data == data && this.capacity == capacity && sources == [] && this.content == content
    {
      this.plate := plate;
      this.row := row;
      this.column := column;
      this.name := name;
      this.data := data;
      this.capacity := capacity;
      sources := [];
      this.content := content;
    }

    /** A copy of `w` for `plate`: the same place, data, capacity and provenance, holding `content`. */
    constructor Clone(plate: Plate, w: Well, content: WellContent)
      ensures this.plate == plate && row == w.row && column == w.column && name == w.name
      ensures data == w.data && capacity == w.capacity && sources == w.sources && this.content == content
    {
      this.plate := plate;
      row := w.row;
      column := w.column;
      name := w.name;
      data := w.data;
      capacity := w.capacity;
      sources := w.sources;
      this.content := content;
    }

    /**
     * Assigning `well.capacity`: an instance attribute that overrides the
     * capacity of the well's class from then on.
     */
    method SetCapacity(capacity: Option<real>)
      modifies this`capacity
      ensures this.capacity == capacity
    {
      this.capacity := capacity;
    }

    /** The volume of the well is always that of its content. */
    function Volume(): (v: real)
      reads content
      ensures v == content.ToDict().volume
    {
      content.volume
    }

    /** A well is empty exactly when its volume is 0, whatever components it still lists. */
    predicate IsEmpty()
      reads content
      ensures IsEmpty() <==> content.ToDict().volume == 0.0
    {
      Volume() == 0.0
    }

    function View(): (v: WellView)
      reads content
      ensures v.volume == Volume() && v.quantities == content.quantities
      ensures v.name == name && v.row == row && v.column == column && v.data == data
    {
      WellView(name, row, column, data, content.volume, content.quantities)
    }

    /** (row, column). */
    function Coordinates(): Cell {
      (row, column)
    }

    /**
     * add_content: converts the volume to liters, checks the capacity, then
     * adds the volume and, one component at a time, the quantities. A failed
     * check leaves the content as it was.
     */
    method AddContent(components: Dict, volume: Option<real>, unit: string) returns (outcome: Outcome)
      modifies content
      ensures var r := AddToContent(old(content.ToDict()), components, volume, unit, capacity);
        (r.Success? ==> outcome == Ok && content.ToDict() == r.value) &&
        (r.Failure? ==> outcome == Err(r.error) && content.ToDict() == old(content.ToDict()))
    {
      if unit !in UnitFactors {
        return Err(KeyError);
      }
      if volume.None? {
        return Err(TypeError);
      }
      var v := ScaledVolume(volume.value, unit);
      if v > 0.0 {
        var finalVolume := content.volume + v;
        if capacity.Some? && finalVolume > capacity.value {
          return Err(TransferError);
        }
        content.volume := finalVolume;
      }
      AddQuantities(components);
      return Ok;
    }

    /** The loop of add_content: each quantity added to its component, a new component starting from 0. */
    method AddQuantities(components: Dict)
      modifies content
      ensures content.volume == old(content.volume)
      ensures content.quantities == AddAll(old(content.quantities), components)
    {
      ghost var q0 := content.quantities;
      var i := 0;
      while i < |components.keys|
        invariant 0 <= i <= |components.keys|
        invariant content.volume == old(content.volume)
        invariant content.quantities == AddItems(q0, components, i)
      {
        var k := components.keys[i];
        assert AddItems(q0, components, i + 1) == AddOne(AddItems(q0, components, i), k, components.amounts[k]);
        AddQuantity(k, components.amounts[k]);
        i := i + 1;
      }
    }

    /** The body of that loop: `quantities[k] = quantities.get(k, 0) + amount`. */
    method AddQuantity(k: string, amount: real)
      modifies content
      ensures content.volume == old(content.volume)
      ensures content.quantities == AddOne(old(content.quantities), k, amount)
    {
      var current := if k in content.quantities.amounts then content.quantities.amounts[k] else 0.0;
      content.quantities := Set(content.quantities, k, current + amount);
    }

    /**
     * subtract_content: checks the volume, takes it off, then subtracts the
     * quantities one component at a time, popping a component whose amount is
     * used up and stopping with KeyError at a component that is not there.
     */
    method SubtractContent(components: Dict, volume: real) returns (outcome: Outcome)
      modifies content
      ensures var r := SubtractFromContent(old(content.ToDict()), components, volume);
        outcome == r.outcome && content.ToDict() == r.after
    {
      if volume > 0.0 {
        if volume > content.volume {
          return Err(TransferError);
        }
        content.volume := content.volume - volume;
      }
      var complete := SubtractQuantities(components);
      outcome := if complete then Ok else Err(KeyError);
    }

    /** The loop of subtract_content: the components subtracted in turn, stopping at the first one missing. */
    method SubtractQuantities(components: Dict) returns (complete: bool)
      modifies content
      ensures content.volume == old(content.volume)
      ensures Subtraction(content.quantities, complete) == SubtractAll(old(content.quantities), components)
    {
      ghost var q0 := content.quantities;
      var i := 0;
      while i < |components.keys|
        invariant 0 <= i <= |components.keys|
        invariant content.volume == old(content.volume)
        invariant SubtractItems(q0, components, i) == Subtraction(content.quantities, true)
      {
        var k := components.keys[i];
        if k !in content.quantities.amounts {
          SubtractItemsStop(q0, components, i + 1, |components.keys|);
          return false;
        }
        SubtractQuantity(k, components.amounts[k]);
        i := i + 1;
      }
      return true;
    }

    /** The body of that loop for a component that is there: popped when used up, decreased otherwise. */
    method SubtractQuantity(k: string, amount: real)
      requires k in content.quantities.amounts
      modifies content
      ensures content.volume == old(content.volume)
      ensures content.quantities == SubtractOne(old(content.quantities), k, amount)
    {
      if content.quantities.amounts[k] == amount {
        content.quantities := Pop(content.quantities, k);
      } else {
        content.quantities := Set(content.quantities, k, content.quantities.amounts[k] - amount);
      }
    }

    /** empty_completely: no components and no volume. */
    method EmptyCompletely()
      modifies content
      ensures content.quantities == Empty() && content.volume == 0.0
      ensures IsEmpty()
    {
      content.quantities := Empty();
      content.volume := 0.0;
    }

    /**
     * iterate_sources_tree, depth first: the trees of the source wells and the
     * other sources in order, then the well itself. `depth` bounds how many
     * levels of source wells are opened; a well below that is listed as a leaf.
     * The frame is `reads *`: the wells read are those reachable through
     * `sources`, a set that is itself a function of the heap, so a frame naming
     * exactly them would have to read the heap before it is known.
     */
    function SourcesTree(depth: nat): (tree: seq<Source>)
      reads *
      ensures tree != [] && tree[|tree| - 1] == WellSource(this)
      decreases depth, 1
    {
      TreeOf(sources, depth) + [WellSource(this)]
    }

    /** index_in_plate: the index of the well's name in its plate's numbering. */
    function IndexInPlate(direction: string): (r: Result<int>)
      ensures r.Success? <==> IsDirection(direction) && WellNameToCoordinates(name).Success?
    {
      WellNameToIndex(name, plate.numWells, direction)
    }

    /** is_after: whether this well comes strictly after `other` in the plate's numbering. */
    function IsAfter(other: Well, direction: string): (r: Result<bool>)
      ensures r.Success? <==> IndexInPlate(direction).Success? && other.IndexInPlate(direction).Success?
      ensures other == this && r.Success? ==> !r.value
    {
      var index :- IndexInPlate(direction);
      var otherIndex :- other.IndexInPlate(direction);
      Success(index > otherIndex)
    }

    /** repr(): "(plate name-well name)", with "None" for an unnamed plate. */
    function Repr(): (r: string)
      ensures |r| >= |name| + 3 && r[0] == '(' && r[|r| - 1] == ')'
      ensures r[|r| - 1 - |name|..|r| - 1] == name && r[|r| - 2 - |name|] == '-'
    {
      "(" + (if plate.name.Some? then plate.name.value else "None") + "-" + name + ")"
    }

    /** __lt__: the order of the repr() strings. */
    predicate Less(other: Well)
      ensures other == this ==> !Less(other)
      ensures Less(other) ==> !LexLe(other.Repr(), Repr())
    {
      if LexLe(Repr(), other.Repr()) && LexLe(other.Repr(), Repr()) then
        LexLeAntisymmetric(Repr(), other.Repr());
        LexLess(Repr(), other.Repr())
      else
        LexLess(Repr(), other.Repr())
    }
  }

  /** The trees of the sources in `sources`, in order (the loop of iterate_sources_tree); framed as SourcesTree is. */
  function TreeOf(sources: seq<Source>, depth: nat): (tree: seq<Source>)
    reads *
    ensures forall i | 0 <= i < |sources| && sources[i].OtherSource? :: sources[i] in tree
    decreases depth, 0, |sources|
  {
    if sources == [] then []
    else
      var head := match sources[0]
        case WellSource(w) => if depth == 0 then [sources[0]] else w.SourcesTree(depth - 1)
        case OtherSource(_) => [sources[0]];
      assert forall i | 1 <= i < |sources| :: sources[i] == sources[1..][i - 1];
      head + TreeOf(sources[1..], depth)
  }

  /** A well none of whose sources is a well lists its sources, then itself. */
  lemma {:induction false} TreeOfLeaves(sources: seq<Source>, depth: nat)
    requires forall i | 0 <= i < |sources| :: sources[i].OtherSource?
    ensures TreeOf(sources, depth) == sources
  {
    if sources != [] {
      TreeOfLeaves(sources[1..], depth);
      assert sources == [sources[0]] + sources[1..];
    }
  }

  /** Every non-well source shows up in the tree, which always ends with the well itself. */
  lemma SourcesTreeLeaves(w: Well, depth: nat)
    ensures forall s | s in w.sources && s.OtherSource? :: s in w.SourcesTree(depth)
    ensures w.SourcesTree(depth)[|w.SourcesTree(depth)| - 1] == WellSource(w)
    ensures (forall s | s in w.sources :: s.OtherSource?) ==> w.SourcesTree(depth) == w.sources + [WellSource(w)]
  {
    if forall s | s in w.sources :: s.OtherSource? {
      TreeOfLeaves(w.sources, depth);
    }
  }

  /** The tree of two runs of sources put together is the tree of the first run, then that of the second. */
  lemma {:induction false} TreeOfAppend(a: seq<Source>, b: seq<Source>, depth: nat)
    ensures TreeOf(a + b, depth) == TreeOf(a, depth) + TreeOf(b, depth)
  {
    if a == [] {
      assert a + b == b;
    } else {
      assert (a + b)[0] == a[0] && (a + b)[1..] == a[1..] + b;
      TreeOfAppend(a[1..], b, depth);
    }
  }

  /**
   * Depth first, in place: the source at position `i` contributes one
   * contiguous block to the tree, between the trees of the sources before it
   * and those after it. Above the depth bound a source well contributes its
   * whole own tree; otherwise the source stands for itself.
   */
  lemma SubtreeInPlace(w: Well, i: nat, depth: nat)
    requires i < |w.sources|
    ensures var s := w.sources[i];
      w.SourcesTree(depth) ==
        TreeOf(w.sources[..i], depth) +
        (if s.WellSource? && depth > 0 then s.well.SourcesTree(depth - 1) else [s]) +
        TreeOf(w.sources[i + 1..], depth) + [WellSource(w)]
  {
    var ss := w.sources;
    assert ss == ss[..i] + ([ss[i]] + ss[i + 1..]);
    TreeOfAppend(ss[..i], [ss[i]] + ss[i + 1..], depth);
    TreeOfAppend([ss[i]], ss[i + 1..], depth);
    assert [ss[i]][1..] == [];
  }

  /**
   * Well `v` can be reached from `w` by following source wells at most
   * `depth` times.
   */
  ghost predicate Reaches(w: Well, v: Well, depth: nat)
    reads *
    decreases depth
  {
    v == w ||
    (depth > 0 && exists i | 0 <= i < |w.sources| :: w.sources[i].WellSource? && Reaches(w.sources[i].well, v, depth - 1))
  }

  /** A source is in the tree of a run of sources when it is one of them or, a level deeper, in the tree of one of its wells. */
  lemma {:induction false} TreeOfMembers(sources: seq<Source>, depth: nat, x: Source)
    ensures x in TreeOf(sources, depth) <==>
      exists i | 0 <= i < |sources| ::
        x == sources[i] || (depth > 0 && sources[i].WellSource? && x in sources[i].well.SourcesTree(depth - 1))
  {
    if sources != [] {
      var rest := sources[1..];
      TreeOfMembers(rest, depth, x);
      assert forall i | 0 <= i < |rest| :: rest[i] == sources[i + 1];
      if exists i | 0 <= i < |sources| ::
        x == sources[i] || (depth > 0 && sources[i].WellSource? && x in sources[i].well.SourcesTree(depth - 1))
      {
        var i :| 0 <= i < |sources| &&
          (x == sources[i] || (depth > 0 && sources[i].WellSource? && x in sources[i].well.SourcesTree(depth - 1)));
        if i > 0 {
          assert rest[i - 1] == sources[i];
        }
      }
    }
  }

  /**
   * The tree of `w` holds exactly the wells reachable from `w` within
   * `depth` levels and the sources, of either kind, of those wells.
   */
  lemma {:induction false} SourcesTreeMembers(w: Well, depth: nat, x: Source)
    ensures x in w.SourcesTree(depth) <==> exists v :: Reaches(w, v, depth) && (x == WellSource(v) || x in v.sources)
    decreases depth
  {
    var ss := w.sources;
    TreeOfMembers(ss, depth, x);
    assert Reaches(w, w, depth);
    if x in w.SourcesTree(depth) && x != WellSource(w) && x !in ss {
      var i :| 0 <= i < |ss| &&
        (x == ss[i] || (depth > 0 && ss[i].WellSource? && x in ss[i].well.SourcesTree(depth - 1)));
      SourcesTreeMembers(ss[i].well, depth - 1, x);
      var v :| Reaches(ss[i].well, v, depth - 1) && (x == WellSource(v) || x in v.sources);
      assert Reaches(w, v, depth);
    }
    if exists v :: Reaches(w, v, depth) && (x == WellSource(v) || x in v.sources) {
      var v :| Reaches(w, v, depth) && (x == WellSource(v) || x in v.sources);
      if v == w {
        if x != WellSource(w) {
          var i :| 0 <= i < |ss| && ss[i] == x;
        }
      } else {
        var i :| 0 <= i < |ss| && ss[i].WellSource? && Reaches(ss[i].well, v, depth - 1);
        SourcesTreeMembers(ss[i].well, depth - 1, x);
      }
    }
  }

  /** A well counts after another exactly when its index is larger: never after itself, and never both ways. */
  lemma IsAfterStrict(a: Well, b: Well, direction: string)
    ensures a.IsAfter(a, direction).Success? ==> a.IsAfter(a, direction) == Success(false)
    ensures a.IsAfter(b, direction).Success? && b.IsAfter(a, direction).Success? ==>
      !(a.IsAfter(b, direction).value && b.IsAfter(a, direction).value)
    ensures a.IsAfter(b, direction).Success? <==> a.IndexInPlate(direction).Success? && b.IndexInPlate(direction).Success?
  {
  }

  /** The order of wells is a strict order: irreflexive and transitive. */
  lemma WellOrder(a: Well, b: Well, c: Well)
    ensures !a.Less(a)
    ensures a.Less(b) && b.Less(c) ==> a.Less(c)
    ensures a.Less(b) ==> !b.Less(a)
  {
    if a.Less(b) && b.Less(c) {
      LexLeTransitive(a.Repr(), b.Repr(), c.Repr());
    }
  }

  // ---------------------------------------------------------------------------
  // The grid of a plate
  // ---------------------------------------------------------------------------

  /** A (row, column) position, both counted from 1. */
  type Cell = (int, int)

  /** The name of a cell: "A1", "H12", "AA3". */
  function CellName(cell: Cell): string
    requires cell.0 >= 1
  {
    CoordinatesToWellName(cell.0, cell.1).value
  }

  /** Two cells of rows 1..51 with the same name are the same cell. */
  lemma CellNameInjective(a: Cell, b: Cell)
    requires 1 <= a.0 <= 51 && 1 <= b.0 <= 51 && a.1 >= 0 && b.1 >= 0
    requires CellName(a) == CellName(b)
    ensures a == b
  {
    assert a.0 <= 26 || a.0 % 26 != 0;
    assert b.0 <= 26 || b.0 % 26 != 0;
    CoordinatesRoundTrip(a.0, a.1);
    CoordinatesRoundTrip(b.0, b.1);
  }

  /** Python's order on (row, column) tuples: by the first, then by the second. */
  predicate CellBefore(a: Cell, b: Cell) {
    a.0 < b.0 || (a.0 == b.0 && a.1 < b.1)
  }

  /** The cells before the one right of `cell` are `cell` and those before it. */
  lemma NextCell(c: Cell, cell: Cell)
    requires CellBefore(c, (cell.0, cell.1 + 1))
    ensures c == cell || CellBefore(c, cell)
  {
  }

  function Transposed(cell: Cell): Cell {
    (cell.1, cell.0)
  }

  predicate InGrid(cell: Cell, nRows: int, nColumns: int) {
    1 <= cell.0 <= nRows && 1 <= cell.1 <= nColumns
  }

  /** The cells of one row, left to right. */
  function RowCells(row: int, nColumns: nat): (cells: seq<Cell>)
    ensures |cells| == nColumns
    ensures forall i | 0 <= i < nColumns :: cells[i] == (row, i + 1)
  {
    if nColumns == 0 then [] else RowCells(row, nColumns - 1) + [(row, nColumns)]
  }

  /** The cells of one column, top to bottom. */
  function ColumnCells(column: int, nRows: nat): (cells: seq<Cell>)
    ensures |cells| == nRows
    ensures forall i | 0 <= i < nRows :: cells[i] == (i + 1, column)
  {
    if nRows == 0 then [] else ColumnCells(column, nRows - 1) + [(nRows, column)]
  }

  /** The grid row after row: the order in which a plate creates its wells. */
  function RowMajor(nRows: nat, nColumns: nat): (cells: seq<Cell>)
    ensures |cells| == nRows * nColumns
    ensures forall i | 0 <= i < |cells| :: InGrid(cells[i], nRows, nColumns)
  {
    if nRows == 0 then []
    else
      assert nRows * nColumns == (nRows - 1) * nColumns + nColumns;
      RowMajor(nRows - 1, nColumns) + RowCells(nRows, nColumns)
  }

  /** The grid column after column. */
  function ColumnMajor(nRows: nat, nColumns: nat): (cells: seq<Cell>)
    ensures |cells| == nRows * nColumns
    ensures forall i | 0 <= i < |cells| :: InGrid(cells[i], nRows, nColumns)
  {
    if nColumns == 0 then []
    else
      assert nRows * nColumns == nRows * (nColumns - 1) + nRows;
      ColumnMajor(nRows, nColumns - 1) + ColumnCells(nColumns, nRows)
  }

  /** Row after row, the cells come strictly in (row, column) order. */
  lemma {:induction false} RowMajorSorted(nRows: nat, nColumns: nat)
    ensures forall i, j | 0 <= i < j < |RowMajor(nRows, nColumns)| ::
      CellBefore(RowMajor(nRows, nColumns)[i], RowMajor(nRows, nColumns)[j])
  {
    if nRows > 0 {
      RowMajorSorted(nRows - 1, nColumns);
      var a, b := RowMajor(nRows - 1, nColumns), RowCells(nRows, nColumns);
      var cells := RowMajor(nRows, nColumns);
      forall i, j | 0 <= i < j < |cells| ensures CellBefore(cells[i], cells[j]) {
        if j < |a| {
          assert cells[i] == a[i] && cells[j] == a[j];
        } else if i < |a| {
          assert cells[i] == a[i] && cells[j] == b[j - |a|];
        } else {
          assert cells[i] == b[i - |a|] && cells[j] == b[j - |a|];
        }
      }
    }
  }

  /** Column after column, the cells come strictly in (column, row) order. */
  lemma {:induction false} ColumnMajorSorted(nRows: nat, nColumns: nat)
    ensures forall i, j | 0 <= i < j < |ColumnMajor(nRows, nColumns)| ::
      CellBefore(Transposed(ColumnMajor(nRows, nColumns)[i]), Transposed(ColumnMajor(nRows, nColumns)[j]))
  {
    if nColumns > 0 {
      ColumnMajorSorted(nRows, nColumns - 1);
      var a, b := ColumnMajor(nRows, nColumns - 1), ColumnCells(nColumns, nRows);
      var cells := ColumnMajor(nRows, nColumns);
      forall i, j | 0 <= i < j < |cells| ensures CellBefore(Transposed(cells[i]), Transposed(cells[j])) {
        if j < |a| {
          assert cells[i] == a[i] && cells[j] == a[j];
        } else if i < |a| {
          assert cells[i] == a[i] && cells[j] == b[j - |a|];
        } else {
          assert cells[i] == b[i - |a|] && cells[j] == b[j - |a|];
        }
      }
    }
  }

  /** Row after row, every cell of the grid is listed. */
  lemma {:induction false} RowMajorCovers(nRows: nat, nColumns: nat, cell: Cell)
    requires InGrid(cell, nRows, nColumns)
    ensures cell in RowMajor(nRows, nColumns)
  {
    if cell.0 < nRows {
      RowMajorCovers(nRows - 1, nColumns, cell);
    } else {
      assert RowCells(nRows, nColumns)[cell.1 - 1] == cell;
    }
  }

  /** Column after column, every cell of the grid is listed. */
  lemma {:induction false} ColumnMajorCovers(nRows: nat, nColumns: nat, cell: Cell)
    requires InGrid(cell, nRows, nColumns)
    ensures cell in ColumnMajor(nRows, nColumns)
  {
    if cell.1 < nColumns {
      ColumnMajorCovers(nRows, nColumns - 1, cell);
    } else {
      assert ColumnCells(nColumns, nRows)[cell.0 - 1] == cell;
    }
  }

  /** The names of cells of rows from 1 on. */
  function NamesOf(cells: seq<Cell>): (names: seq<string>)
    requires forall i | 0 <= i < |cells| :: cells[i].0 >= 1
    ensures |names| == |cells|
    ensures forall i | 0 <= i < |cells| :: names[i] == CellName(cells[i])
  {
    seq(|cells|, i requires 0 <= i < |cells| => CellName(cells[i]))
  }

  /** The names of the grid, row after row: the keys of a plate's wells dict, in insertion order. */
  function GridNames(nRows: nat, nColumns: nat): seq<string> {
    NamesOf(RowMajor(nRows, nColumns))
  }

  /** The cell of a given column, as a filter. */
  function CellInColumn(column: int): Cell -> bool {
    (cell: Cell) => cell.1 == column
  }

  /** The cell of a given row, as a filter. */
  function CellInRow(row: int): Cell -> bool {
    (cell: Cell) => cell.0 == row
  }

  /** Of the cells of one row, the filter for column `column` keeps that one cell. */
  lemma {:induction false} RowCellsInColumn(row: int, nColumns: nat, column: int)
    ensures Filter(RowCells(row, nColumns), CellInColumn(column)) == if 1 <= column <= nColumns then [(row, column)] else []
  {
    if nColumns > 0 {
      RowCellsInColumn(row, nColumns - 1, column);
      FilterAppend(RowCells(row, nColumns - 1), [(row, nColumns)], CellInColumn(column));
      assert Filter([(row, nColumns)], CellInColumn(column)) == if column == nColumns then [(row, nColumns)] else [];
    }
  }

  /** Row after row, the cells of column `column` are that column, top to bottom. */
  lemma {:induction false} RowMajorColumn(nRows: nat, nColumns: nat, column: int)
    ensures Filter(RowMajor(nRows, nColumns), CellInColumn(column)) ==
      if 1 <= column <= nColumns then ColumnCells(column, nRows) else []
  {
    if nRows > 0 {
      RowMajorColumn(nRows - 1, nColumns, column);
      FilterAppend(RowMajor(nRows - 1, nColumns), RowCells(nRows, nColumns), CellInColumn(column));
      RowCellsInColumn(nRows, nColumns, column);
    }
  }

  /** Of the cells of one row, the filter for row `row` keeps all or none. */
  lemma {:induction false} RowCellsInRow(r: int, nColumns: nat, row: int)
    ensures Filter(RowCells(r, nColumns), CellInRow(row)) == if r == row then RowCells(r, nColumns) else []
  {
    if nColumns > 0 {
      RowCellsInRow(r, nColumns - 1, row);
      FilterAppend(RowCells(r, nColumns - 1), [(r, nColumns)], CellInRow(row));
      assert Filter([(r, nColumns)], CellInRow(row)) == if r == row then [(r, nColumns)] else [];
    }
  }

  /** Row after row, the cells of row `row` are that row, left to right. */
  lemma {:induction false} RowMajorRow(nRows: nat, nColumns: nat, row: int)
    ensures Filter(RowMajor(nRows, nColumns), CellInRow(row)) ==
      if 1 <= row <= nRows then RowCells(row, nColumns) else []
  {
    if nRows > 0 {
      RowMajorRow(nRows - 1, nColumns, row);
      FilterAppend(RowMajor(nRows - 1, nColumns), RowCells(nRows, nColumns), CellInRow(row));
      RowCellsInRow(nRows, nColumns, row);
    }
  }

  // ---------------------------------------------------------------------------
  // Grouping wells by a key (an OrderedDict of lists)
  // ---------------------------------------------------------------------------

  /** A grouping key: a string, or None. */
  type GroupKey = Option<string>

  /** The default key of wells_grouped_by: the value of a data field, None when the well lacks it. */
  function DataFieldKey(field: Option<string>): WellView -> GroupKey {
    (v: WellView) => if field.Some? && field.value in v.data then Some(v.data[field.value]) else None
  }

  /** What each well of `ws` shows of itself, in order. */
  function ViewsOf(ws: seq<Well>): (views: seq<WellView>)
    reads set w | w in ws :: w.content
    ensures |views| == |ws| && forall i | 0 <= i < |ws| :: views[i] == ws[i].View()
  {
    if ws == [] then []
    else
      assert forall w | w in ws[..|ws| - 1] :: w in ws;
      ViewsOf(ws[..|ws| - 1]) + [ws[|ws| - 1].View()]
  }

  /** The key of each well, given what the wells show, in order. */
  function KeysOf(views: seq<WellView>, key: WellView -> GroupKey): (ks: seq<GroupKey>)
    ensures |ks| == |views| && forall i | 0 <= i < |views| :: ks[i] == key(views[i])
  {
    if views == [] then [] else KeysOf(views[..|views| - 1], key) + [key(views[|views| - 1])]
  }

  /** The string a key is sorted by; only consulted when no key is None. */
  function KeyText(k: GroupKey): string {
    if k.Some? then k.value else ""
  }

  /** A key other than None. */
  predicate IsNamed(k: GroupKey) {
    k.Some?
  }

  /**
   * The order in which the groups are listed: keys in order of first
   * occurrence, None dropped on request, then sorted on request. Sorting two
   * or more keys of which one is None compares None with a string, which
   * raises TypeError.
   */
  function GroupOrder(ks: seq<GroupKey>, sortKeys: bool, ignoreNone: bool): Result<seq<GroupKey>> {
    var keys := KeptKeys(ks, ignoreNone);
    if !sortKeys then Success(keys)
    else if None in keys && |keys| >= 2 then Failure(TypeError)
    else Success(SortBy(keys, KeyText))
  }

  /**
   * The key order fails only when sorting meets None beside another key; it
   * lists each key once, exactly the keys of the wells (less None when
   * dropped), in order of first occurrence or sorted.
   */
  lemma GroupOrderSpec(ks: seq<GroupKey>, sortKeys: bool, ignoreNone: bool)
    ensures GroupOrder(ks, sortKeys, ignoreNone).Failure? <==>
      sortKeys && !ignoreNone && None in ks && |FirstSeen(ks)| >= 2
    ensures var r := GroupOrder(ks, sortKeys, ignoreNone);
      r.Success? ==>
        Distinct(r.value) &&
        (forall k :: k in r.value <==> k in ks && !(ignoreNone && k.None?)) &&
        (!sortKeys ==> r.value == if ignoreNone then Filter(FirstSeen(ks), IsNamed) else FirstSeen(ks)) &&
        (sortKeys ==> SortedBy(r.value, KeyText))
  {
    var kept := KeptKeys(ks, ignoreNone);
    if sortKeys {
      if ignoreNone {
        assert None !in kept;
      } else {
        assert kept == FirstSeen(ks);
      }
      SortedKeys(kept);
    }
  }

  /** The keys sorted by their text: each once, the same keys, in order. */
  lemma SortedKeys(kept: seq<GroupKey>)
    requires Distinct(kept)
    ensures var sorted := SortBy(kept, KeyText);
      Distinct(sorted) && (forall k :: k in sorted <==> k in kept) && SortedBy(sorted, KeyText)
  {
    var sorted := SortBy(kept, KeyText);
    SortByMultiset(kept, KeyText);
    SortBySorted(kept, KeyText);
    MultisetDistinct(kept, sorted);
    forall k ensures k in sorted <==> k in kept {
      assert k in kept <==> k in multiset(kept);
      assert k in sorted <==> k in multiset(sorted);
    }
  }

  /** The keys in order of first occurrence, less None when it is dropped: each once, and all of them. */
  function KeptKeys(ks: seq<GroupKey>, ignoreNone: bool): (kept: seq<GroupKey>)
    ensures kept == if ignoreNone then Filter(FirstSeen(ks), IsNamed) else FirstSeen(ks)
    ensures Distinct(kept)
    ensures forall k :: k in kept <==> k in ks && !(ignoreNone && k.None?)
  {
    SeenKeys(ks);
    FirstSeenDistinct(ks);
    FilterDistinct(FirstSeen(ks), IsNamed);
    NamedKeys(FirstSeen(ks));
    if ignoreNone then Filter(FirstSeen(ks), IsNamed) else FirstSeen(ks)
  }

  lemma SeenKeys<K>(ks: seq<K>)
    ensures forall k :: k in FirstSeen(ks) <==> k in ks
  {
    forall k | k in ks ensures k in FirstSeen(ks) {
      var i :| 0 <= i < |ks| && ks[i] == k;
    }
  }

  lemma NamedKeys(s: seq<GroupKey>)
    ensures forall k :: k in Filter(s, IsNamed) <==> k in s && k.Some?
  {
    FilterMembers(s, IsNamed);
  }

  /**
   * The loop of wells_grouped_by: each well filed under its key, a key met
   * for the first time opening a new list at the end of the ordered dict.
   */
  method FileByKey(ws: seq<Well>, ghost views: seq<WellView>, key: WellView -> GroupKey)
    returns (order: seq<GroupKey>, groups: map<GroupKey, seq<Well>>)
    requires |views| == |ws| && forall i | 0 <= i < |ws| :: views[i] == ws[i].View()
    ensures Filed(ws, KeysOf(views, key), |ws|, order, groups)
  {
    ghost var ks := KeysOf(views, key);
    order, groups := [], map[];
    var i := 0;
    while i < |ws|
      invariant 0 <= i <= |ws|
      invariant Filed(ws, ks, i, order, groups)
    {
      var k := key(ws[i].View());
      FileStep(ws, ks, i, order, groups);
      if k !in groups {
        order := order + [k];
        groups := groups[k := [ws[i]]];
      } else {
        groups := groups[k := groups[k] + [ws[i]]];
      }
      i := i + 1;
    }
  }

  /** The ordered dict after filing the first `i` wells. */
  ghost predicate Filed(ws: seq<Well>, ks: seq<GroupKey>, i: nat, order: seq<GroupKey>, groups: map<GroupKey, seq<Well>>) {
    |ws| == |ks| && i <= |ws| &&
    order == FirstSeen(ks[..i]) &&
    (forall k :: k in groups <==> k in order) &&
    (forall k | k in groups :: groups[k] == Members(ws[..i], ks[..i], k))
  }

  /** Filing well `i` under its key extends that key's list, or opens it at the end, and touches no other. */
  lemma FileStep(ws: seq<Well>, ks: seq<GroupKey>, i: nat, order: seq<GroupKey>, groups: map<GroupKey, seq<Well>>)
    requires Filed(ws, ks, i, order, groups) && i < |ws|
    ensures ks[i] !in groups ==> Filed(ws, ks, i + 1, order + [ks[i]], groups[ks[i] := [ws[i]]])
    ensures ks[i] in groups ==> Filed(ws, ks, i + 1, order, groups[ks[i] := groups[ks[i]] + [ws[i]]])
  {
    var k := ks[i];
    FirstSeenStep(ks, i);
    var next := if k !in groups then groups[k := [ws[i]]] else groups[k := groups[k] + [ws[i]]];
    forall g | g in next ensures next[g] == Members(ws[..i + 1], ks[..i + 1], g) {
      MembersStep(ws, ks, i, g);
      if g == k && k !in groups {
        MembersOfKey(ws[..i], ks[..i], k);
      }
    }
  }

  /** The body of wells_grouped_by, on the wells in traversal order. */
  method GroupWells(ws: seq<Well>, ghost views: seq<WellView>, key: WellView -> GroupKey, sortKeys: bool, ignoreNone: bool)
    returns (r: Result<seq<(GroupKey, seq<Well>)>>)
    requires |views| == |ws| && forall i | 0 <= i < |ws| :: views[i] == ws[i].View()
    ensures r == Grouping(ws, KeysOf(views, key), sortKeys, ignoreNone)
  {
    var order, groups := FileByKey(ws, views, key);
    ghost var ks := KeysOf(views, key);
    ghost var seen, filed := order, groups;
    if ignoreNone {
      order := Filter(order, IsNamed);
      groups := groups - {None};
    }
    GroupsReady(ws, ks, seen, filed, sortKeys, ignoreNone);
    if sortKeys && None in order && |order| >= 2 {
      return Failure(TypeError);
    }
    if sortKeys {
      order := SortBy(order, KeyText);
    }
    var groupList := ListGroups(ws, ks, order, groups);
    return Success(groupList);
  }

  /**
   * After filing every well, the dict (less None when dropped) answers the
   * grouping: sorting fails exactly when the function says so, and otherwise
   * every key listed has its list of wells ready.
   */
  lemma GroupsReady(ws: seq<Well>, ks: seq<GroupKey>, order: seq<GroupKey>, groups: map<GroupKey, seq<Well>>, sortKeys: bool, ignoreNone: bool)
    requires Filed(ws, ks, |ws|, order, groups)
    ensures var kept := if ignoreNone then Filter(order, IsNamed) else order;
      var g := if ignoreNone then groups - {None} else groups;
      var listed := if sortKeys then SortBy(kept, KeyText) else kept;
      (sortKeys && None in kept && |kept| >= 2 ==> Grouping(ws, ks, sortKeys, ignoreNone) == Failure(TypeError)) &&
      (!(sortKeys && None in kept && |kept| >= 2) ==>
        Grouping(ws, ks, sortKeys, ignoreNone) == Success(GroupsOf(ws, ks, listed)) &&
        forall k | k in listed :: k in g && g[k] == Members(ws, ks, k))
  {
    assert ks[..|ws|] == ks && ws[..|ws|] == ws;
    var kept := KeptKeys(ks, ignoreNone);
    assert kept == if ignoreNone then Filter(order, IsNamed) else order;
    GroupOrderSpec(ks, sortKeys, ignoreNone);
    SeenKeys(ks);
  }

  /** The list comprehension of wells_grouped_by: each key of `order` with its list. */
  method ListGroups(ws: seq<Well>, ghost ks: seq<GroupKey>, order: seq<GroupKey>, groups: map<GroupKey, seq<Well>>)
    returns (result: seq<(GroupKey, seq<Well>)>)
    requires |ws| == |ks|
    requires forall k | k in order :: k in groups && groups[k] == Members(ws, ks, k)
    ensures result == GroupsOf(ws, ks, order)
  {
    result := [];
    var j := 0;
    while j < |order|
      invariant 0 <= j <= |order|
      invariant result == GroupsOf(ws, ks, order[..j])
    {
      result := result + [(order[j], groups[order[j]])];
      assert order[..j + 1][..j] == order[..j];
      j := j + 1;
    }
    assert order[..j] == order;
  }

  /** The group of each key of `keys`, in that order. */
  function GroupsOf(ws: seq<Well>, ks: seq<GroupKey>, keys: seq<GroupKey>): (groups: seq<(GroupKey, seq<Well>)>)
    requires |ws| == |ks|
    ensures |groups| == |keys|
    ensures forall i | 0 <= i < |keys| :: groups[i] == (keys[i], Members(ws, ks, keys[i]))
  {
    if keys == [] then [] else GroupsOf(ws, ks, keys[..|keys| - 1]) + [(keys[|keys| - 1], Members(ws, ks, keys[|keys| - 1]))]
  }

  /** wells_grouped_by on wells listed in `ws` whose keys are `ks`. */
  function Grouping(ws: seq<Well>, ks: seq<GroupKey>, sortKeys: bool, ignoreNone: bool): Result<seq<(GroupKey, seq<Well>)>>
    requires |ws| == |ks|
  {
    var keys :- GroupOrder(ks, sortKeys, ignoreNone);
    Success(GroupsOf(ws, ks, keys))
  }

  /**
   * The groups partition the wells: no key twice, each group the non-empty
   * list of the wells of that key in traversal order, and every well in the
   * group of its key unless that key is a dropped None. Without dropping, the
   * group sizes add up to the number of wells.
   */
  lemma GroupingSpec(ws: seq<Well>, ks: seq<GroupKey>, sortKeys: bool, ignoreNone: bool)
    requires |ws| == |ks|
    ensures var r := Grouping(ws, ks, sortKeys, ignoreNone);
      r.Success? ==>
        (forall i, j | 0 <= i < j < |r.value| :: r.value[i].0 != r.value[j].0) &&
        (forall i | 0 <= i < |r.value| :: r.value[i].1 == Members(ws, ks, r.value[i].0) && r.value[i].1 != []) &&
        (forall i | 0 <= i < |ws| && !(ignoreNone && ks[i].None?) ::
          exists g :: 0 <= g < |r.value| && r.value[g].0 == ks[i] && ws[i] in r.value[g].1)
    ensures !ignoreNone && !sortKeys ==> GroupSizes(ws, ks, FirstSeen(ks)) == |ws|
  {
    GroupsPartition(ws, ks);
    GroupOrderSpec(ks, sortKeys, ignoreNone);
    var r := Grouping(ws, ks, sortKeys, ignoreNone);
    if r.Success? {
      var order := GroupOrder(ks, sortKeys, ignoreNone).value;
      forall i, j | 0 <= i < j < |r.value| ensures r.value[i].0 != r.value[j].0 {
        DistinctElements(order, i, j);
      }
      forall i | 0 <= i < |r.value| ensures r.value[i].1 == Members(ws, ks, r.value[i].0) && r.value[i].1 != [] {
        MembersOfKey(ws, ks, order[i]);
      }
      forall i | 0 <= i < |ws| && !(ignoreNone && ks[i].None?)
        ensures exists g :: 0 <= g < |r.value| && r.value[g].0 == ks[i] && ws[i] in r.value[g].1
      {
        assert ks[i] in ks;
        var g :| 0 <= g < |order| && order[g] == ks[i];
        MembersOfKey(ws, ks, ks[i]);
        assert r.value[g].0 == ks[i] && ws[i] in r.value[g].1;
      }
    }
  }

  /**
   * Grouping by a data field that no well carries (or by no field) files
   * every well under None: one group holding all the wells in traversal order.
   */
  lemma GroupedByMissingField(ws: seq<Well>, views: seq<WellView>, field: Option<string>)
    requires |views| == |ws| && ws != []
    requires forall i | 0 <= i < |views| :: field.None? || field.value !in views[i].data
    ensures Grouping(ws, KeysOf(views, DataFieldKey(field)), false, false) == Success([(None, ws)])
  {
    var ks := KeysOf(views, DataFieldKey(field));
    FirstSeenConstant(ks, None);
    MembersConstant(ws, ks, None);
    assert GroupsOf(ws, ks, [None]) == [(None, Members(ws, ks, None))];
  }

  /** A permutation of a list without repeats has no repeats. */
  lemma MultisetDistinct<T>(a: seq<T>, b: seq<T>)
    requires Distinct(a) && multiset(a) == multiset(b)
    ensures Distinct(b)
  {
    forall i, j ensures DistinctAt(b, i, j) {
      if 0 <= i < j < |b| && b[i] == b[j] {
        var x := b[i];
        assert multiset(b)[x] >= 2 by {
          var rest := b[..i] + b[i + 1..];
          assert b == b[..i] + [b[i]] + b[i + 1..];
          assert x in rest by {
            assert rest[j - 1] == b[j];
          }
          assert multiset(b) == multiset(rest) + multiset{x};
        }
        DistinctCount(a, x);
      }
    }
  }

  /** In a list without repeats every element occurs at most once. */
  lemma {:induction false} DistinctCount<T>(a: seq<T>, x: T)
    requires Distinct(a)
    ensures multiset(a)[x] <= 1
  {
    if a != [] {
      var t := a[..|a| - 1];
      DistinctInit(a);
      DistinctCount(t, x);
      DistinctNotBefore(a, |a| - 1);
      assert a == t + [a[|a| - 1]];
    }
  }

  // ---------------------------------------------------------------------------
  // Plate formats
  // ---------------------------------------------------------------------------

  /** The built-in plate classes: their grid and the capacity of their wells. */
  datatype PlateKind =
    | Plate96 | Plate384 | Plate1536 | Plate2x4
    | Plate4ti0960 | Plate4ti0130
    | PlateLabcyteEchoLp0200Ldv | PlateLabcyteEchoP05525Pp
    | Trough8x1
  {
    function NumRows(): (n: nat)
      ensures 2 <= n <= 32
    {
      match this
      case Plate96 | Plate4ti0960 | Plate4ti0130 | Trough8x1 => 8
      case Plate384 | PlateLabcyteEchoLp0200Ldv | PlateLabcyteEchoP05525Pp => 16
      case Plate1536 => 32
      case Plate2x4 => 2
    }

    function NumColumns(): (n: nat)
      ensures n >= 1
    {
      match this
      case Plate96 | Plate4ti0960 | Plate4ti0130 => 12
      case Plate384 | PlateLabcyteEchoLp0200Ldv | PlateLabcyteEchoP05525Pp => 24
      case Plate1536 => 48
      case Plate2x4 => 4
      case Trough8x1 => 1
    }

    /**
     * The capacity of the plate's well class. The two Echo plates declare a
     * nested well class that the plate never uses, so their wells are
     * unlimited like the generic well.
     */
    function WellCapacity(): Option<real> {
      match this
      case Plate4ti0960 => Some(0.00015)
      case Plate4ti0130 => Some(0.0019)
      case _ => None
    }

    function ClassName(): string {
      match this
      case Plate96 => "Plate96"
      case Plate384 => "Plate384"
      case Plate1536 => "Plate1536"
      case Plate2x4 => "Plate2x4"
      case Plate4ti0960 => "Plate4ti0960"
      case Plate4ti0130 => "Plate4ti0130"
      case PlateLabcyteEchoLp0200Ldv => "PlateLabcyteEchoLp0200Ldv"
      case PlateLabcyteEchoP05525Pp => "PlateLabcyteEchoP05525Pp"
      case Trough8x1 => "Trough8x1"
    }

    /** The formats whose well count is 6k^2 wells on a 2k x 3k grid. */
    predicate IsStandardGrid() {
      !Plate2x4? && !Trough8x1?
    }
  }

  /** The built-in grids hold 96, 384, 1536 and 8 wells, and only the standard ones read back as their grid. */
  lemma PlateKindDimensions(kind: PlateKind)
    ensures kind.IsStandardGrid() ==>
      ComputeRowsColumns(kind.NumRows() * kind.NumColumns()) == Success((kind.NumRows(), kind.NumColumns()))
    ensures !kind.IsStandardGrid() ==>
      kind.NumRows() * kind.NumColumns() == 8 && ComputeRowsColumns(8) == Success((2, 3))
  {
    BuiltinPlateDimensions();
    EightWellsReadAsTwoByThree();
  }

  /** The key iter_wells sorts by: (row, column) for "row", (column, row) otherwise. */
  function SortKey(direction: string, w: Well): Cell {
    if direction == RowDirection then w.Coordinates() else Transposed(w.Coordinates())
  }

  /** The well condition of list_wells_in_column. */
  function WellInColumn(column: int): Well -> bool {
    (w: Well) => w.column == column
  }

  /** The well condition of list_wells_in_row. */
  function WellInRow(row: int): Well -> bool {
    (w: Well) => w.row == row
  }

  /** The row argument of list_wells_in_row: a number, or a row name such as "H". */
  datatype RowRef = RowNumber(number: int) | RowLabel(rowName: string)

  /** A condition on views, read through the views of the plate's wells. */
  function Satisfies(views: map<Well, WellView>, condition: WellView -> bool): Well -> bool {
    (w: Well) => w in views && condition(views[w])
  }

  /** The condition of find_unique_well_containing. */
  function Holds(query: string): WellView -> bool {
    (v: WellView) => query in v.quantities.amounts
  }

  /** Strictly earlier in (row, column) order. */
  predicate WellBefore(a: Well, b: Well) {
    CellBefore(a.Coordinates(), b.Coordinates())
  }

  /** The cell names used by the examples. */
  lemma NamesA4B1()
    ensures CellName((1, 4)) == "A4" && CellName((2, 1)) == "B1" && CellName((1, 2)) == "A2"
  {
    SingleLetterName(1);
    SingleLetterName(2);
    assert NumberToRowName(1).value == "A" && NumberToRowName(2).value == "B";
    assert IntToString(4) == "4" && IntToString(1) == "1" && IntToString(2) == "2";
  }

  /** Eight wells read as 2 x 3: A4 and B1 both get index 4, index 4 names B1 and index 2 names A2. */
  lemma EightWellIndices()
    ensures WellNameToIndex("A4", 8, RowDirection) == Success(4)
    ensures WellNameToIndex("B1", 8, RowDirection) == Success(4)
    ensures IndexToWellName(4, 8, RowDirection) == Success("B1")
    ensures IndexToWellName(2, 8, RowDirection) == Success("A2")
  {
    EightWellNamesToIndex();
    EightWellIndicesToNames();
  }

  lemma EightWellNamesToIndex()
    ensures WellNameToIndex("A4", 8, RowDirection) == Success(4)
    ensures WellNameToIndex("B1", 8, RowDirection) == Success(4)
  {
    EightWellsReadAsTwoByThree();
    ParseLetterDigits('A', "4");
    ParseLetterDigits('B', "1");
    assert ['A'] + "4" == "A4" && ['B'] + "1" == "B1";
  }

  lemma EightWellIndicesToNames()
    ensures IndexToWellName(4, 8, RowDirection) == Success("B1")
    ensures IndexToWellName(2, 8, RowDirection) == Success("A2")
  {
    EightWellsReadAsTwoByThree();
    NamesA4B1();
    assert GridCell(4, 2, 3, RowDirection) == Success((2, 1));
    assert GridCell(2, 2, 3, RowDirection) == Success((1, 2));
    assert IndexToRowColumn(4, 8, RowDirection) == Success((2, 1));
    assert IndexToRowColumn(2, 8, RowDirection) == Success((1, 2));
  }

  /** On 96 wells, row after row, A1 is index 1 and A2 index 2. */
  lemma WellIndicesA1A2()
    ensures WellNameToIndex("A1", 96, RowDirection) == Success(1)
    ensures WellNameToIndex("A2", 96, RowDirection) == Success(2)
  {
    WellIndexInFirstRow('1');
    WellIndexInFirstRow('2');
    assert ['A', '1'] == "A1" && ['A', '2'] == "A2";
  }

  /** On 96 wells, row after row, the well A<d> of the first row is index d. */
  lemma WellIndexInFirstRow(d: char)
    requires '1' <= d <= '9'
    ensures WellNameToIndex(['A', d], 96, RowDirection) == Success(d as int - '0' as int)
  {
    BuiltinPlateDimensions();
    ParseLetterDigits('A', [d]);
    assert ['A'] + [d] == ['A', d];
  }

  /** Index `index` of a grid, row after row, is the cell at position index - 1 of RowMajor. */
  lemma RowMajorIndex(index: int, nRows: nat, nColumns: nat)
    requires 1 <= index <= nRows * nColumns
    ensures GridCell(index, nRows, nColumns, RowDirection) == Success(RowMajor(nRows, nColumns)[index - 1])
  {
    var i := index - 1;
    RowMajorAt(nRows, nColumns, i);
    var c := RowMajor(nRows, nColumns)[i];
    assert c == (i / nColumns + 1, i % nColumns + 1);
    GridCellOfIndex(index, nRows, nColumns);
  }

  /** For an index from 1 on, the truncating division of grid_cell is Dafny's. */
  lemma GridCellOfIndex(index: int, nRows: int, nColumns: int)
    requires index >= 1
    ensures nColumns >= 1 ==> GridCell(index, nRows, nColumns, RowDirection) == Success(((index - 1) / nColumns + 1, (index - 1) % nColumns + 1))
    ensures nRows >= 1 ==> GridCell(index, nRows, nColumns, ColumnDirection) == Success(((index - 1) % nRows + 1, (index - 1) / nRows + 1))
  {
  }

  /** Index `index` of a grid, column after column, is the cell at position index - 1 of ColumnMajor. */
  lemma ColumnMajorIndex(index: int, nRows: nat, nColumns: nat)
    requires 1 <= index <= nRows * nColumns
    ensures GridCell(index, nRows, nColumns, ColumnDirection) == Success(ColumnMajor(nRows, nColumns)[index - 1])
  {
    var i := index - 1;
    ColumnMajorAt(nRows, nColumns, i);
    var c := ColumnMajor(nRows, nColumns)[i];
    assert c == (i % nRows + 1, i / nRows + 1);
    GridCellOfIndex(index, nRows, nColumns);
  }

  /** Row after row, position i holds the cell (i / columns + 1, i % columns + 1). */
  lemma {:induction false} RowMajorAt(nRows: nat, nColumns: nat, i: nat)
    requires i < nRows * nColumns
    ensures nColumns >= 1 && RowMajor(nRows, nColumns)[i] == (i / nColumns + 1, i % nColumns + 1)
  {
    assert nRows >= 1 && nColumns >= 1 by {
      if nRows == 0 || nColumns == 0 {
        assert false;
      }
    }
    var first := RowMajor(nRows - 1, nColumns);
    assert RowMajor(nRows, nColumns) == first + RowCells(nRows, nColumns);
    if i < |first| {
      RowMajorAt(nRows - 1, nColumns, i);
    } else {
      var j := i - |first|;
      assert j < nColumns && |first| == nColumns * (nRows - 1);
      QuotientOf(nRows - 1, j, nColumns, nRows);
    }
  }

  /** Column after column, position i holds the cell (i % rows + 1, i / rows + 1). */
  lemma {:induction false} ColumnMajorAt(nRows: nat, nColumns: nat, i: nat)
    requires i < nRows * nColumns
    ensures nRows >= 1 && ColumnMajor(nRows, nColumns)[i] == (i % nRows + 1, i / nRows + 1)
  {
    assert nRows >= 1 && nColumns >= 1 by {
      if nRows == 0 || nColumns == 0 {
        assert false;
      }
    }
    var first := ColumnMajor(nRows, nColumns - 1);
    assert ColumnMajor(nRows, nColumns) == first + ColumnCells(nColumns, nRows);
    if i < |first| {
      ColumnMajorAt(nRows, nColumns - 1, i);
    } else {
      var j := i - |first|;
      assert j < nRows && |first| == nRows * (nColumns - 1);
      QuotientOf(nColumns - 1, j, nRows, nColumns);
    }
  }

  /** A key of `plate[key]`: a well name, or a position, which is what Python's iteration protocol passes. */
  datatype Key = NameKey(name: string) | PositionKey(position: int)

  // ---------------------------------------------------------------------------
  // Plates
  // ---------------------------------------------------------------------------

  /**
   * Well `copy`, of plate `plate`, is a copy of `w`: the same place, name,
   * data, capacity and provenance, and a content in the same state.
   */
  ghost predicate Cloned(copy: Well, w: Well, plate: Plate)
    reads copy, w, copy.content, w.content
  {
    copy.plate == plate && copy.row == w.row && copy.column == w.column && copy.name == w.name &&
    copy.data == w.data && copy.capacity == w.capacity && copy.sources == w.sources &&
    copy.content.ToDict() == w.content.ToDict()
  }

  /** Each content is mapped to a copy in the same state, and distinct contents to distinct copies. */
  ghost predicate Copies(copied: map<WellContent, WellContent>)
    reads copied.Keys, copied.Values
  {
    (forall c | c in copied :: copied[c].ToDict() == c.ToDict()) &&
    forall c1, c2 | c1 in copied && c2 in copied && c1 != c2 :: copied[c1] != copied[c2]
  }

  /** The copy of content `c`: the one already made, or a new content in the same state. */
  method CopyContent(c: WellContent, copied: map<WellContent, WellContent>)
    returns (content: WellContent, copied': map<WellContent, WellContent>)
    requires Copies(copied)
    ensures Copies(copied') && copied'.Keys == copied.Keys + {c} && copied'[c] == content
    ensures forall d | d in copied :: copied'[d] == copied[d]
    ensures c in copied || fresh(content)
  {
    if c in copied {
      content := copied[c];
      copied' := copied;
    } else {
      content := new WellContent(Some(c.quantities), c.volume);
      copied' := copied[c := content];
    }
  }

  /**
   * The wells in `built` are copies, for `plate`, of `other`'s wells of the
   * same names, and `copied` maps each content of `other` met so far, one to
   * one, to the copy those wells hold.
   */
  ghost predicate ClonedSoFar(plate: Plate, other: Plate, built: map<string, Well>, copied: map<WellContent, WellContent>)
    reads other, other.wells.Values, built.Values, copied.Keys, copied.Values
    reads set w | w in built.Values :: w.content, set w | w in other.wells.Values :: w.content
  {
    built.Keys <= other.wells.Keys &&
    (forall k | k in built :: Cloned(built[k], other.wells[k], plate)) &&
    (forall k | k in built :: other.wells[k].content in copied && built[k].content == copied[other.wells[k].content]) &&
    Copies(copied)
  }

  /** One step of a plate's copy: the copy of `other`'s well `k`, with the copy of its content made once. */
  method CloneWell(plate: Plate, other: Plate, k: string, built: map<string, Well>, copied: map<WellContent, WellContent>)
    returns (built': map<string, Well>, copied': map<WellContent, WellContent>)
    requires k in other.wells && ClonedSoFar(plate, other, built, copied)
    ensures ClonedSoFar(plate, other, built', copied')
    ensures k in built' && built' == built[k := built'[k]] && fresh(built'[k])
    ensures forall c | c in copied' :: (c in copied && copied'[c] == copied[c]) || fresh(copied'[c])
  {
    var original := other.wells[k];
    var content;
    content, copied' := CopyContent(original.content, copied);
    var well := new Well.Clone(plate, original, content);
    built' := built[k := well];
    forall j | j in built'
      ensures Cloned(built'[j], other.wells[j], plate)
      ensures other.wells[j].content in copied' && built'[j].content == copied'[other.wells[j].content]
    {
      if j != k {
        assert built'[j] == built[j];
      }
    }
  }

  /** The copies of all of `other`'s wells for `plate`, each content copied once. */
  method CloneWells(plate: Plate, other: Plate) returns (built: map<string, Well>, copied: map<WellContent, WellContent>)
    ensures built.Keys == other.wells.Keys && ClonedSoFar(plate, other, built, copied)
    ensures forall k | k in built :: fresh(built[k]) && fresh(built[k].content)
  {
    var todo := other.wells.Keys;
    built, copied := map[], map[];
    while todo != {}
      invariant todo <= other.wells.Keys && built.Keys == other.wells.Keys - todo
      invariant ClonedSoFar(plate, other, built, copied)
      invariant forall k | k in built :: fresh(built[k])
      invariant forall c | c in copied :: fresh(copied[c])
      decreases todo
    {
      var k :| k in todo;
      built, copied := CloneWell(plate, other, k, built, copied);
      todo := todo - {k};
    }
  }

  class Plate {
    const kind: PlateKind
    const name: Option<string>
    const data: WellData
    const wellsData: map<string, WellData>
    const numRows: nat
    const numColumns: nat
    const numWells: nat
    /** The wells by name, created row after row. */
    var wells: map<string, Well>

    /** Well `w` is filed under `k`: it belongs to this plate, is named `k`, and `k` names its cell of the grid. */
    ghost predicate Fits(w: Well, k: string) {
      w.plate == this && w.name == k &&
      InGrid(w.Coordinates(), numRows, numColumns) && CellName(w.Coordinates()) == k
    }

    /** The grid of the plate's format, with a well filed under the name of each cell and under no other name. */
    ghost predicate Valid()
      reads this
    {
      numRows == kind.NumRows() && numColumns == kind.NumColumns() && numWells == numRows * numColumns &&
      (forall k | k in wells :: Fits(wells[k], k)) &&
      (forall cell | InGrid(cell, numRows, numColumns) :: CellName(cell) in wells)
    }

    /**
     * A plate of the given format: one fresh, empty well per cell, created row
     * after row, each with the data filed under its name and the capacity of
     * the format. A trough ignores the data it is given, and its eight
     * positions share one content.
     */
    constructor (kind: PlateKind, name: Option<string>, wellsData: map<string, WellData>, plateData: WellData)
      ensures Valid()
      ensures this.kind == kind && this.name == name
      ensures data == (if kind.Trough8x1? then map[] else plateData)
      ensures this.wellsData == (if kind.Trough8x1? then map[] else wellsData)
      ensures forall k | k in wells :: fresh(wells[k]) && fresh(wells[k].content)
      ensures forall k | k in wells ::
        wells[k].data == (if k in this.wellsData then this.wellsData[k] else map[]) &&
        wells[k].capacity == kind.WellCapacity() && wells[k].sources == []
      ensures forall k | k in wells :: wells[k].content.volume == 0.0 && wells[k].content.quantities == Empty()
      ensures !kind.Trough8x1? ==>
        forall k1, k2 | k1 in wells && k2 in wells && k1 != k2 :: wells[k1].content != wells[k2].content
      ensures kind.Trough8x1? ==>
        forall k1, k2 | k1 in wells && k2 in wells :: wells[k1].content == wells[k2].content
    {
      var trough := kind.Trough8x1?;
      this.kind := kind;
      this.name := name;
      data := if trough then map[] else plateData;
      this.wellsData := if trough then map[] else wellsData;
      numRows := kind.NumRows();
      numColumns := kind.NumColumns();
      numWells := kind.NumRows() * kind.NumColumns();
      wells := map[];
      new;
      var capacity := kind.WellCapacity();
      var shared := new WellContent(None, 0.0);
      ghost var owner: map<WellContent, string> := map[];
      var row := 1;
      while row <= numRows
        invariant 1 <= row <= numRows + 1
        invariant Built((row, 1), capacity, shared, owner)
        invariant forall k | k in wells :: fresh(wells[k]) && fresh(wells[k].content)
        invariant fresh(shared) && shared.volume == 0.0 && shared.quantities == Empty()
      {
        var column := 1;
        while column <= numColumns
          invariant 1 <= column <= numColumns + 1
          invariant Built((row, column), capacity, shared, owner)
          invariant forall k | k in wells :: fresh(wells[k]) && fresh(wells[k].content)
          invariant fresh(shared) && shared.volume == 0.0 && shared.quantities == Empty()
        {
          owner := AddWell((row, column), capacity, shared, owner);
          column := column + 1;
        }
        assert Built((row + 1, 1), capacity, shared, owner);
        row := row + 1;
      }
      assert Built((numRows + 1, 1), capacity, shared, owner);
    }

    /**
     * The wells filed so far are as the constructor leaves them, every cell
     * before `upTo` has its well, and (off a trough) `owner` tells whose
     * content each content is.
     */
    ghost predicate Built(upTo: Cell, capacity: Option<real>, shared: WellContent, owner: map<WellContent, string>)
      reads this, wells.Values, set w | w in wells.Values :: w.content
    {
      (forall k | k in wells :: Placed(wells[k], k, shared)) &&
      (forall k | k in wells :: Pristine(wells[k], capacity)) &&
      (forall cell | InGrid(cell, numRows, numColumns) && CellBefore(cell, upTo) :: CellName(cell) in wells) &&
      (!kind.Trough8x1? ==> forall k | k in wells :: wells[k].content in owner && owner[wells[k].content] == k)
    }

    /** One step of the constructor: the well of `cell`, with a fresh content or, on a trough, the shared one. */
    method AddWell(cell: Cell, capacity: Option<real>, shared: WellContent, ghost owner: map<WellContent, string>)
      returns (ghost owner': map<WellContent, string>)
      requires InGrid(cell, numRows, numColumns)
      requires Built(cell, capacity, shared, owner)
      requires shared.volume == 0.0 && shared.quantities == Empty()
      modifies this
      ensures Built((cell.0, cell.1 + 1), capacity, shared, owner')
      ensures forall k | k in wells ::
        (k in old(wells) && wells[k] == old(wells)[k]) ||
        (fresh(wells[k]) && (fresh(wells[k].content) || wells[k].content == shared))
    {
      var wellname := CellName(cell);
      var well := MakeWell(cell, capacity, shared);
      owner' := if kind.Trough8x1? then owner else owner[well.content := wellname];
      ghost var before := wells;
      wells := wells[wellname := well];
      forall k | k in wells ensures Placed(wells[k], k, shared) && Pristine(wells[k], capacity) {
        if k != wellname {
          assert wells[k] == before[k];
        }
      }
      if !kind.Trough8x1? {
        forall k | k in wells ensures wells[k].content in owner' && owner'[wells[k].content] == k {
          if k != wellname {
            assert wells[k] == before[k] && before[k].content in owner;
            assert before[k].content != well.content;
          }
        }
      }
      forall c | InGrid(c, numRows, numColumns) && CellBefore(c, (cell.0, cell.1 + 1)) ensures CellName(c) in wells {
        NextCell(c, cell);
        if c != cell {
          assert CellName(c) in before;
        }
      }
    }

    /** The well of `cell`, with the data filed under its name and a fresh content or, on a trough, the shared one. */
    method MakeWell(cell: Cell, capacity: Option<real>, shared: WellContent) returns (well: Well)
      requires InGrid(cell, numRows, numColumns)
      requires shared.volume == 0.0 && shared.quantities == Empty()
      ensures fresh(well) && (if kind.Trough8x1? then well.content == shared else fresh(well.content))
      ensures Placed(well, CellName(cell), shared) && Pristine(well, capacity)
    {
      var wellname := CellName(cell);
      var wellData := if wellname in wellsData then wellsData[wellname] else map[];
      if kind.Trough8x1? {
        well := new Well.Sharing(this, cell.0, cell.1, wellname, wellData, capacity, shared);
      } else {
        well := new Well(this, cell.0, cell.1, wellname, wellData, capacity);
      }
    }

    /**
     * deepcopy(plate): a new plate of the same format, name and data whose
     * wells are new wells in the same places, with the same data, capacity
     * and provenance, each holding a new content in the same state. Wells
     * that share a content (the positions of a trough) share its copy.
     */
    constructor Copy(other: Plate)
      ensures CopyOf(other)
      ensures forall k | k in wells :: fresh(wells[k]) && fresh(wells[k].content)
      ensures other.Valid() ==> Valid()
    {
      kind := other.kind;
      name := other.name;
      data := other.data;
      wellsData := other.wellsData;
      numRows := other.numRows;
      numColumns := other.numColumns;
      numWells := other.numWells;
      wells := map[];
      new;
      var built, copied := CloneWells(this, other);
      wells := built;
      CopiedAll(other, copied);
      if other.Valid() {
        CopyValid(other);
      }
    }

    /** Once every well is copied, the plate is a copy of `other`. */
    lemma CopiedAll(other: Plate, copied: map<WellContent, WellContent>)
      requires ClonedSoFar(this, other, wells, copied) && wells.Keys == other.wells.Keys
      requires kind == other.kind && name == other.name && data == other.data && wellsData == other.wellsData
      requires numRows == other.numRows && numColumns == other.numColumns && numWells == other.numWells
      ensures CopyOf(other)
    {
    }

    /** A copy of a plate laid out as its format says is laid out the same way. */
    lemma CopyValid(other: Plate)
      requires CopyOf(other) && other.Valid()
      ensures Valid()
    {
      forall k | k in wells ensures Fits(wells[k], k) {
        assert other.Fits(other.wells[k], k);
      }
    }

    /** This plate is a copy of `other`: the same format, name and data, and for each name a copy of `other`'s well. */
    ghost predicate CopyOf(other: Plate)
      reads this, other, wells.Values, other.wells.Values
      reads set w | w in wells.Values :: w.content, set w | w in other.wells.Values :: w.content
    {
      kind == other.kind && name == other.name && data == other.data && wellsData == other.wellsData &&
      numRows == other.numRows && numColumns == other.numColumns && numWells == other.numWells &&
      wells.Keys == other.wells.Keys &&
      (forall k | k in wells :: Cloned(wells[k], other.wells[k], this)) &&
      forall k1, k2 | k1 in wells && k2 in wells ::
        wells[k1].content == wells[k2].content <==> other.wells[k1].content == other.wells[k2].content
    }

    /**
     * Well `w`, filed under `k`, is where the constructor put it: in its
     * place, with its data, and on a trough with the shared content.
     */
    ghost predicate Placed(w: Well, k: string, shared: WellContent) {
      Fits(w, k) &&
      w.data == (if k in wellsData then wellsData[k] else map[]) &&
      (kind.Trough8x1? ==> w.content == shared)
    }

    /** Well `w` is as new: the format's capacity, no provenance and an empty content. */
    ghost predicate Pristine(w: Well, capacity: Option<real>)
      reads w, w.content
    {
      w.capacity == capacity && w.sources == [] &&
      w.content.volume == 0.0 && w.content.quantities == Empty()
    }

    /** The well at a cell of the grid, which sits at that cell. */
    lemma WellAtCell(cell: Cell)
      requires Valid() && InGrid(cell, numRows, numColumns)
      ensures CellName(cell) in wells && wells[CellName(cell)].Coordinates() == cell
    {
      var w := wells[CellName(cell)];
      assert Fits(w, CellName(cell));
      CellNameInjective(w.Coordinates(), cell);
    }

    /** Every cell of the list lies in the grid. */
    predicate AllInGrid(cells: seq<Cell>) {
      forall i | 0 <= i < |cells| :: InGrid(cells[i], numRows, numColumns)
    }

    /** Every cell of the list names one of the plate's wells. */
    predicate Listed(cells: seq<Cell>)
      reads this
    {
      forall i | 0 <= i < |cells| :: cells[i].0 >= 1 && CellName(cells[i]) in wells
    }

    /** The wells at the given cells, in order. */
    function WellsOf(cells: seq<Cell>): (ws: seq<Well>)
      reads this
      requires Listed(cells)
      ensures |ws| == |cells|
      ensures forall i | 0 <= i < |cells| :: ws[i] == wells[CellName(cells[i])]
    {
      seq(|cells|, i requires 0 <= i < |cells| && Listed(cells) reads this => wells[CellName(cells[i])])
    }

    /** The wells of a list of cells: the well of the first cell, then those of the others. */
    lemma WellsOfCons(cells: seq<Cell>)
      requires Listed(cells) && cells != []
      ensures Listed(cells[1..])
      ensures WellsOf(cells) == [wells[CellName(cells[0])]] + WellsOf(cells[1..])
    {
      var t := cells[1..];
      forall i | 0 <= i < |t| ensures t[i].0 >= 1 && CellName(t[i]) in wells {
        assert t[i] == cells[i + 1];
      }
      var ws, wt := WellsOf(cells), WellsOf(t);
      forall i | 0 <= i < |ws| ensures ws[i] == ([wells[CellName(cells[0])]] + wt)[i] {
        if i > 0 {
          assert t[i - 1] == cells[i];
        }
      }
    }

    /** The well listed for each cell sits at that cell and is one of the plate's wells. */
    lemma WellsOfCells(cells: seq<Cell>)
      requires Valid() && AllInGrid(cells)
      ensures Listed(cells)
      ensures forall i | 0 <= i < |cells| :: WellsOf(cells)[i].Coordinates() == cells[i] && WellsOf(cells)[i] in wells.Values
    {
      forall i | 0 <= i < |cells| ensures WellsOf(cells)[i].Coordinates() == cells[i] && WellsOf(cells)[i] in wells.Values {
        WellAtCell(cells[i]);
      }
    }

    /** wells.values(): the wells in the order they were created, row after row. */
    function Values(): (ws: seq<Well>)
      reads this
      requires Valid()
      ensures |ws| == numWells
    {
      WellsOf(RowMajor(numRows, numColumns))
    }

    /** iter_wells: the wells sorted by (row, column) for "row", and by (column, row) for any other direction. */
    function IterWells(direction: string): (ws: seq<Well>)
      reads this
      requires Valid()
      ensures |ws| == numWells
    {
      WellsOf(IterCells(direction))
    }

    /** The cells of the grid in the order iter_wells lists them. */
    function IterCells(direction: string): (cells: seq<Cell>)
      ensures AllInGrid(cells)
    {
      if direction == RowDirection then RowMajor(numRows, numColumns) else ColumnMajor(numRows, numColumns)
    }

    /** iter_wells lists the wells strictly in the order of its sort key, so no two wells share a place. */
    lemma IterWellsSorted(direction: string)
      requires Valid()
      ensures var ws := IterWells(direction);
        forall i, j | 0 <= i < j < |ws| :: CellBefore(SortKey(direction, ws[i]), SortKey(direction, ws[j]))
    {
      var cells := IterCells(direction);
      var ws := IterWells(direction);
      assert ws == WellsOf(cells);
      WellsOfCells(cells);
      RowMajorSorted(numRows, numColumns);
      ColumnMajorSorted(numRows, numColumns);
      forall i, j | 0 <= i < j < |ws| ensures CellBefore(SortKey(direction, ws[i]), SortKey(direction, ws[j])) {
        assert ws[i].Coordinates() == cells[i] && ws[j].Coordinates() == cells[j];
      }
    }

    /** iter_wells lists every well of the plate and nothing else. */
    lemma IterWellsMembers(direction: string)
      requires Valid()
      ensures forall w :: w in IterWells(direction) <==> w in wells.Values
    {
      var cells := IterCells(direction);
      var ws := IterWells(direction);
      assert ws == WellsOf(cells);
      WellsOfCells(cells);
      forall w | w in wells.Values ensures w in ws {
        var k :| k in wells && wells[k] == w;
        assert Fits(w, k);
        var cell := w.Coordinates();
        RowMajorCovers(numRows, numColumns, cell);
        ColumnMajorCovers(numRows, numColumns, cell);
        var i :| 0 <= i < |cells| && cells[i] == cell;
        assert ws[i] == wells[CellName(cell)];
      }
    }

    /** No well is listed twice by iter_wells, in either direction. */
    lemma IterWellsDistinct(direction: string)
      requires Valid()
      ensures Distinct(IterWells(direction))
    {
      IterWellsSorted(direction);
      var ws := IterWells(direction);
      forall i, j ensures DistinctAt(ws, i, j) {
        if 0 <= i < j < |ws| {
          assert SortKey(direction, ws[i]) != SortKey(direction, ws[j]);
        }
      }
    }
  
    /** plate[key]: the well filed under a name; any other key, positions included, raises KeyError. */
    function GetItem(key: Key): (r: Result<Well>)
      reads this
      ensures r.Success? <==> key.NameKey? && key.name in wells
      ensures r.Success? ==> r.value == wells[key.name]
      ensures r.Failure? ==> r.error == KeyError
    {
      match key
      case NameKey(k) => if k in wells then Success(wells[k]) else Failure(KeyError)
      case PositionKey(_) => Failure(KeyError)
    }

    /**
     * list_well_data_fields iterates the plate, and Python iterates an object
     * that only defines __getitem__ by looking up positions 0, 1, ... The first
     * lookup already fails, and its KeyError is the outcome.
     */
    function ListWellDataFields(): (r: Result<seq<string>>)
      reads this
      ensures r == Failure(KeyError)
    {
      GetItem(PositionKey(0)).PropagateFailure()
    }

    /** A plate answers to the name of every cell of its grid and to no position, so iterating it fails at once. */
    lemma GetItemKeys(cell: Cell, position: int)
      requires Valid() && InGrid(cell, numRows, numColumns)
      ensures GetItem(NameKey(CellName(cell))).Success? && GetItem(NameKey(CellName(cell))).value.Coordinates() == cell
      ensures GetItem(PositionKey(position)) == Failure(KeyError)
      ensures ListWellDataFields() == Failure(KeyError)
    {
      WellAtCell(cell);
    }

    /** repr(): the class name and the plate name. */
    function Repr(): (r: string)
      ensures |r| > |kind.ClassName()| && r[..|kind.ClassName()|] == kind.ClassName() && r[|kind.ClassName()|] == '('
      ensures r[|r| - 1] == ')'
    {
      kind.ClassName() + "(" + (if name.Some? then name.value else "None") + ")"
    }

    // -------------------------------------------------------------------------
    // Rows and columns
    // -------------------------------------------------------------------------

    /**
     * Filtering the wells of some cells with a well condition that agrees with
     * a cell condition is filtering the cells first.
     */
    lemma {:induction false} FilterWellsOf(cells: seq<Cell>, wp: Well -> bool, cp: Cell -> bool)
      requires Listed(cells)
      requires forall i | 0 <= i < |cells| :: wp(wells[CellName(cells[i])]) == cp(cells[i])
      ensures Listed(Filter(cells, cp))
      ensures Filter(WellsOf(cells), wp) == WellsOf(Filter(cells, cp))
    {
      if cells != [] {
        var c, t := cells[0], cells[1..];
        WellsOfCons(cells);
        assert forall i | 0 <= i < |t| :: t[i] == cells[i + 1];
        FilterWellsOf(t, wp, cp);
        assert WellsOf(cells)[1..] == WellsOf(t);
        var f := Filter(t, cp);
        if cp(c) {
          assert Filter(cells, cp) == [c] + f;
          ListedCons(c, f);
          assert ([c] + f)[1..] == f;
          WellsOfCons([c] + f);
        } else {
          assert Filter(cells, cp) == f;
        }
      }
    }

    /** A cell naming a well in front of cells that do. */
    lemma ListedCons(c: Cell, cells: seq<Cell>)
      requires c.0 >= 1 && CellName(c) in wells && Listed(cells)
      ensures Listed([c] + cells)
    {
      var l := [c] + cells;
      forall i | 0 <= i < |l| ensures l[i].0 >= 1 && CellName(l[i]) in wells {
        if i > 0 {
          assert l[i] == cells[i - 1];
        }
      }
    }

    /** On cells of the grid, the column condition on their wells is the column condition on the cells. */
    lemma ColumnAgrees(cells: seq<Cell>, column: int)
      requires Valid() && AllInGrid(cells)
      ensures Listed(cells)
      ensures forall i | 0 <= i < |cells| :: WellInColumn(column)(wells[CellName(cells[i])]) == CellInColumn(column)(cells[i])
    {
      WellsOfCells(cells);
      forall i | 0 <= i < |cells| ensures WellInColumn(column)(wells[CellName(cells[i])]) == CellInColumn(column)(cells[i]) {
        assert WellsOf(cells)[i] == wells[CellName(cells[i])];
      }
    }

    /** On cells of the grid, the row condition on their wells is the row condition on the cells. */
    lemma RowAgrees(cells: seq<Cell>, row: int)
      requires Valid() && AllInGrid(cells)
      ensures Listed(cells)
      ensures forall i | 0 <= i < |cells| :: WellInRow(row)(wells[CellName(cells[i])]) == CellInRow(row)(cells[i])
    {
      WellsOfCells(cells);
      forall i | 0 <= i < |cells| ensures WellInRow(row)(wells[CellName(cells[i])]) == CellInRow(row)(cells[i]) {
        assert WellsOf(cells)[i] == wells[CellName(cells[i])];
      }
    }

    /** list_wells_in_column: the wells of iter_wells() in that column. */
    function ListWellsInColumn(column: int): (r: seq<Well>)
      reads this
      requires Valid()
      ensures forall w | w in r :: w in wells.Values && w.column == column
    {
      FilterMembers(IterWells(RowDirection), WellInColumn(column));
      IterWellsMembers(RowDirection);
      Filter(IterWells(RowDirection), WellInColumn(column))
    }

    /** The wells of a column of the grid, top to bottom; no wells for a column outside it. */
    lemma ListWellsInColumnSpec(column: int)
      requires Valid()
      ensures var r := ListWellsInColumn(column);
        if 1 <= column <= numColumns then
          |r| == numRows && forall i | 0 <= i < numRows :: r[i] == wells[CellName((i + 1, column))] && r[i].Coordinates() == (i + 1, column)
        else r == []
    {
      var cells := RowMajor(numRows, numColumns);
      ColumnAgrees(cells, column);
      FilterWellsOf(cells, WellInColumn(column), CellInColumn(column));
      RowMajorColumn(numRows, numColumns, column);
      if 1 <= column <= numColumns {
        assert ListWellsInColumn(column) == WellsOf(ColumnCells(column, numRows));
        ColumnWells(column);
      } else {
        assert ListWellsInColumn(column) == WellsOf([]);
      }
    }

    /** The wells of the cells of one column of the grid, top to bottom. */
    lemma ColumnWells(column: int)
      requires Valid() && 1 <= column <= numColumns
      ensures Listed(ColumnCells(column, numRows))
      ensures var ws := WellsOf(ColumnCells(column, numRows));
        |ws| == numRows && forall i | 0 <= i < numRows :: ws[i] == wells[CellName((i + 1, column))] && ws[i].Coordinates() == (i + 1, column)
    {
      var kept := ColumnCells(column, numRows);
      assert AllInGrid(kept) by {
        forall i | 0 <= i < |kept| ensures InGrid(kept[i], numRows, numColumns) {
          assert kept[i] == (i + 1, column);
        }
      }
      WellsOfCells(kept);
    }

    /** The wells of the cells of one row of the grid, left to right. */
    lemma RowWells(row: int)
      requires Valid() && 1 <= row <= numRows
      ensures Listed(RowCells(row, numColumns))
      ensures var ws := WellsOf(RowCells(row, numColumns));
        |ws| == numColumns && forall i | 0 <= i < numColumns :: ws[i] == wells[CellName((row, i + 1))] && ws[i].Coordinates() == (row, i + 1)
    {
      var kept := RowCells(row, numColumns);
      assert AllInGrid(kept) by {
        forall i | 0 <= i < |kept| ensures InGrid(kept[i], numRows, numColumns) {
          assert kept[i] == (row, i + 1);
        }
      }
      WellsOfCells(kept);
    }

    /** list_wells_in_row: a row name is converted to its number first. */
    function ListWellsInRow(row: RowRef): (r: Result<seq<Well>>)
      reads this
      requires Valid()
      ensures row.RowNumber? ==> r.Success?
      ensures row.RowLabel? ==> (r.Success? <==> RowNameToNumber(row.rowName).Success?)
      ensures r.Failure? ==> r.error == ValueError
      ensures r.Success? ==> forall w | w in r.value :: w in wells.Values
    {
      IterWellsMembers(RowDirection);
      var number :- if row.RowLabel? then RowNameToNumber(row.rowName) else Success(row.number);
      FilterMembers(IterWells(RowDirection), WellInRow(number));
      Success(Filter(IterWells(RowDirection), WellInRow(number)))
    }

    /**
     * The wells of a row of the grid, left to right; no wells for a row outside
     * it; a row name that does not parse raises its error.
     */
    lemma ListWellsInRowSpec(row: RowRef)
      requires Valid()
      ensures var n := if row.RowLabel? then RowNameToNumber(row.rowName) else Success(row.number);
        var r := ListWellsInRow(row);
        (r.Success? <==> n.Success?) &&
        (r.Success? && 1 <= n.value <= numRows ==>
          |r.value| == numColumns &&
          forall i | 0 <= i < numColumns :: r.value[i] == wells[CellName((n.value, i + 1))] && r.value[i].Coordinates() == (n.value, i + 1)) &&
        (r.Success? && !(1 <= n.value <= numRows) ==> r.value == [])
    {
      var n := if row.RowLabel? then RowNameToNumber(row.rowName) else Success(row.number);
      if n.Success? {
        var cells := RowMajor(numRows, numColumns);
        RowAgrees(cells, n.value);
        FilterWellsOf(cells, WellInRow(n.value), CellInRow(n.value));
        RowMajorRow(numRows, numColumns, n.value);
        if 1 <= n.value <= numRows {
          assert ListWellsInRow(row).value == WellsOf(RowCells(n.value, numColumns));
          RowWells(n.value);
        } else {
          assert ListWellsInRow(row).value == WellsOf([]);
        }
      }
    }

    // -------------------------------------------------------------------------
    // Conditions on wells
    // -------------------------------------------------------------------------

    /** The contents of the plate's wells. */
    ghost function Contents(): set<object>
      reads this
    {
      set w | w in wells.Values :: w.content
    }

    /** What each well of the plate looks like now. */
    function Views(): map<Well, WellView>
      reads this, Contents()
    {
      map w | w in wells.Values :: w.View()
    }

    /** list_filtered_wells: the wells, in creation order, that satisfy the condition. */
    function ListFilteredWells(condition: WellView -> bool): (r: seq<Well>)
      reads this, Contents()
      requires Valid()
      ensures forall w | w in r :: w in wells.Values && condition(w.View())
    {
      IterWellsMembers(RowDirection);
      FilterMembers(Values(), Satisfies(Views(), condition));
      Filter(Values(), Satisfies(Views(), condition))
    }

    /** Exactly the wells that satisfy the condition are listed, each once, in (row, column) order. */
    lemma ListFilteredWellsSpec(condition: WellView -> bool)
      requires Valid()
      ensures var r := ListFilteredWells(condition);
        (forall w :: w in r <==> w in wells.Values && condition(w.View())) &&
        Distinct(r) &&
        forall i, j | 0 <= i < j < |r| :: CellBefore(r[i].Coordinates(), r[j].Coordinates())
    {
      var p := Satisfies(Views(), condition);
      IterWellsMembers(RowDirection);
      IterWellsDistinct(RowDirection);
      IterWellsSorted(RowDirection);
      FilterMembers(Values(), p);
      FilterDistinct(Values(), p);
      FilterOrdered(Values(), p, WellBefore);
    }

    /** find_unique_well_by_condition: the one well, in creation order, that satisfies the condition. */
    function FindUniqueWellByCondition(condition: WellView -> bool): (r: Result<Well>)
      reads this, Contents()
      requires Valid()
      ensures r.Failure? ==> r.error == ValueError
      ensures r.Success? ==> r.value in wells.Values && condition(r.value.View())
    {
      var matches := Filter(Values(), Satisfies(Views(), condition));
      if |matches| > 1 then Failure(ValueError)
      else if |matches| == 0 then Failure(ValueError)
      else
        IterWellsMembers(RowDirection);
        FilterMembers(Values(), Satisfies(Views(), condition));
        assert matches[0] in matches;
        Success(matches[0])
    }

    /**
     * The search succeeds exactly when one well satisfies the condition, and
     * returns that well; no match and several matches both raise ValueError.
     */
    lemma FindUniqueWellByConditionSpec(condition: WellView -> bool)
      requires Valid()
      ensures FindUniqueWellByCondition(condition).Failure? ==> FindUniqueWellByCondition(condition).error == ValueError
      ensures FindUniqueWellByCondition(condition).Success? ==>
        FindUniqueWellByCondition(condition).value in wells.Values && condition(FindUniqueWellByCondition(condition).value.View())
      ensures FindUniqueWellByCondition(condition).Success? ==>
        forall w | w in wells.Values && condition(w.View()) :: w == FindUniqueWellByCondition(condition).value
      ensures FindUniqueWellByCondition(condition).Failure? ==>
        (forall w | w in wells.Values :: !condition(w.View())) ||
        (exists w1, w2 :: w1 in wells.Values && w2 in wells.Values && w1 != w2 && condition(w1.View()) && condition(w2.View()))
    {
      var s, p := Values(), Satisfies(Views(), condition);
      var f := Filter(s, p);
      assert s == IterWells(RowDirection);
      IterWellsMembers(RowDirection);
      IterWellsDistinct(RowDirection);
      SatisfiesViews(condition);
      FilterCount(s, p);
      if |f| == 0 {
        forall w | w in wells.Values ensures !condition(w.View()) {
          assert w in s;
        }
      } else if |f| == 1 {
        forall w | w in wells.Values && condition(w.View()) ensures w == f[0] {
          assert w in s && p(w);
        }
      } else {
        assert f[0] in wells.Values && f[1] in wells.Values && condition(f[0].View()) && condition(f[1].View());
      }
    }

    /** A well of the plate satisfies a condition read through the views exactly when its own view does. */
    lemma SatisfiesViews(condition: WellView -> bool)
      ensures forall w | w in wells.Values :: Satisfies(Views(), condition)(w) == condition(w.View())
    {
    }

    /** find_unique_well_containing: the one well whose content lists the component. */
    function FindUniqueWellContaining(query: string): (r: Result<Well>)
      reads this, Contents()
      requires Valid()
      ensures r.Failure? ==> r.error == ValueError
      ensures r.Success? ==> r.value in wells.Values && query in r.value.content.quantities.amounts
    {
      FindUniqueWellByCondition(Holds(query))
    }

    /** The well found holds the component and no other well does; otherwise ValueError. */
    lemma FindUniqueWellContainingSpec(query: string)
      requires Valid()
      ensures var r := FindUniqueWellContaining(query);
        (r.Failure? ==> r.error == ValueError) &&
        (r.Success? ==> r.value in wells.Values && query in r.value.content.quantities.amounts) &&
        (r.Success? ==> forall w | w in wells.Values && query in w.content.quantities.amounts :: w == r.value) &&
        ((forall w | w in wells.Values :: query !in w.content.quantities.amounts) ==> r.Failure?)
    {
      FindUniqueWellByConditionSpec(Holds(query));
    }

    /**
     * wells_grouped_by: walks the wells in the given direction, filing each
     * under its key in an ordered dict of lists, then drops the None group on
     * request and lists the groups in key order, sorted on request.
     */
    method WellsGroupedBy(key: WellView -> GroupKey, sortKeys: bool, ignoreNone: bool, direction: string)
      returns (r: Result<seq<(GroupKey, seq<Well>)>>)
      requires Valid()
      ensures r == Grouping(IterWells(direction), KeysOf(ViewsOf(IterWells(direction)), key), sortKeys, ignoreNone)
    {
      var ws := IterWells(direction);
      r := GroupWells(ws, ViewsOf(ws), key, sortKeys, ignoreNone);
    }

    // -------------------------------------------------------------------------
    // Indices
    // -------------------------------------------------------------------------

    /** index_to_wellname, with the grid derived from the plate's well count. */
    function IndexToWellName(index: int, direction: string): (r: Result<string>)
      ensures r.Success? <==>
        IndexToRowColumn(index, numWells, direction).Success? && IndexToRowColumn(index, numWells, direction).value.0 >= -25
      ensures IndexToRowColumn(index, numWells, direction).Success? && r.Failure? ==> r.error == IndexError
      ensures r.Success? ==> numWells >= 1 && IsDirection(direction)
      ensures index >= 1 && numWells >= 1 && IsDirection(direction) ==> r.Success?
    {
      Coordinates.IndexToWellName(index, numWells, direction)
    }

    /** wellname_to_index, with the grid derived from the plate's well count. */
    function WellNameToIndex(wellname: string, direction: string): (r: Result<int>)
      ensures r.Success? <==> IsDirection(direction) && WellNameToCoordinates(wellname).Success?
    {
      Coordinates.WellNameToIndex(wellname, numWells, direction)
    }

    /** get_well_at_index: the well whose name the index gives. */
    function GetWellAtIndex(index: int, direction: string): (r: Result<Well>)
      reads this
      ensures r.Success? ==> r.value in wells.Values && numWells >= 1 && IsDirection(direction)
      ensures r.Success? ==>
        (IndexToWellName(index, direction).Success? &&
         IndexToWellName(index, direction).value in wells && r.value == wells[IndexToWellName(index, direction).value])
    {
      var wellname :- IndexToWellName(index, direction);
      GetItem(NameKey(wellname))
    }

    /**
     * On the standard formats every index 1..num_wells finds a well: the one
     * iter_wells lists at that position, and whose index_in_plate gives the
     * index back.
     */
    lemma GetWellAtIndexSpec(index: int, direction: string)
      requires Valid() && kind.IsStandardGrid() && IsDirection(direction)
      requires 1 <= index <= numWells
      ensures GetWellAtIndex(index, direction).Success?
      ensures GetWellAtIndex(index, direction).value == IterWells(direction)[index - 1]
      ensures GetWellAtIndex(index, direction).value.IndexInPlate(direction) == Success(index)
    {
      PlateKindDimensions(kind);
      var cell := IterCells(direction)[index - 1];
      if direction == RowDirection {
        RowMajorIndex(index, numRows, numColumns);
      } else {
        ColumnMajorIndex(index, numRows, numColumns);
      }
      assert IndexToWellName(index, direction) == Success(CellName(cell));
      WellAtCell(cell);
      var w := wells[CellName(cell)];
      assert Fits(w, CellName(cell));
      WellNameIndexRoundTrip(index, numWells, direction);
    }

    /**
     * The lookup get_well_at_index evidently intends: the index is read against
     * the plate's own rows and columns instead of dimensions derived from its
     * well count.
     */
    function GetWellAtGridIndex(index: int, direction: string): (r: Result<Well>)
      reads this
      ensures r.Success? ==> r.value in wells.Values && IsDirection(direction)
      ensures r.Success? ==>
        var cell := GridCell(index, numRows, numColumns, direction);
        cell.Success? && cell.value.0 >= 1 && CellName(cell.value) in wells && r.value == wells[CellName(cell.value)]
    {
      var cell :- GridCell(index, numRows, numColumns, direction);
      if cell.0 >= 1 then GetItem(NameKey(CellName(cell))) else Failure(KeyError)
    }

    /**
     * On every plate kind, the eight-well ones included, each index 1..num_wells
     * finds the well iter_wells lists at that position, and that well's cell
     * numbers back to the index on the plate's own grid.
     */
    lemma GetWellAtGridIndexSpec(index: int, direction: string)
      requires Valid() && IsDirection(direction)
      requires 1 <= index <= numWells
      ensures GetWellAtGridIndex(index, direction).Success?
      ensures GetWellAtGridIndex(index, direction).value == IterWells(direction)[index - 1]
      ensures var w := GetWellAtGridIndex(index, direction).value;
        GridIndex(w.row, w.column, numRows, numColumns, direction) == Success(index)
    {
      var cell := IterCells(direction)[index - 1];
      if direction == RowDirection {
        RowMajorIndex(index, numRows, numColumns);
      } else {
        ColumnMajorIndex(index, numRows, numColumns);
      }
      assert GridCell(index, numRows, numColumns, direction) == Success(cell);
      WellAtCell(cell);
      GridCellInGrid(index, numRows, numColumns, direction);
    }

    /**
     * A 2 x 4 plate has 8 wells, which the index functions read as a 2 x 3
     * grid: wells A4 and B1 get the same index, and index 4 finds B1.
     */
    lemma Plate2x4IndicesCollide()
      requires Valid() && kind == Plate2x4
      ensures "A4" in wells && "B1" in wells
      ensures wells["A4"].IndexInPlate(RowDirection) == Success(4)
      ensures wells["B1"].IndexInPlate(RowDirection) == Success(4)
      ensures GetWellAtIndex(4, RowDirection) == Success(wells["B1"])
    {
      NamesA4B1();
      EightWellIndices();
      WellAtCell((1, 4));
      WellAtCell((2, 1));
      var a4, b1 := wells["A4"], wells["B1"];
      assert a4.plate == this && a4.name == "A4" by {
        assert Fits(a4, "A4");
      }
      assert b1.plate == this && b1.name == "B1" by {
        assert Fits(b1, "B1");
      }
      assert numWells == 8;
      assert IndexToWellName(4, RowDirection) == Success("B1");
    }

    /** On a 96-well plate, A1 is not after A2 and A2 is after A1. */
    lemma IsAfterExample()
      requires Valid() && kind == Plate96
      ensures "A1" in wells && "A2" in wells
      ensures wells["A1"].IsAfter(wells["A2"], RowDirection) == Success(false)
      ensures wells["A2"].IsAfter(wells["A1"], RowDirection) == Success(true)
    {
      NamesA4B1();
      assert CellName((1, 1)) == "A1" by {
        SingleLetterName(1);
        assert NumberToRowName(1).value == "A" && IntToString(1) == "1";
      }
      WellAtCell((1, 1));
      WellAtCell((1, 2));
      var a1, a2 := wells["A1"], wells["A2"];
      assert Fits(a1, "A1") && Fits(a2, "A2");
      assert numWells == 96;
      WellIndicesA1A2();
    }

    /** On a trough, index 2 names A2, which the single-column trough does not have. */
    lemma TroughIndexMissing()
      requires Valid() && kind == Trough8x1
      ensures GetWellAtIndex(2, RowDirection) == Failure(KeyError)
    {
      EightWellIndicesToNames();
      assert numWells == 8;
      assert IndexToWellName(2, RowDirection) == Success("A2");
      if "A2" in wells {
        var w := wells["A2"];
        assert Fits(w, "A2");
        NamesA4B1();
        CellNameInjective(w.Coordinates(), (1, 2));
        assert false;
      }
    }
  }
}
