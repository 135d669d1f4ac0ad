/**
 * get_iterated() and its DM_DatasetIterator: the raw rows are buffered once,
 * and one scratch object, a copy of the parent, is cleared and refilled from a
 * row each time an item is asked for. The position is the only state that
 * moves, so the rows can be walked again after a rewind.
 */
module Streaming {
  import opened Results
  import opened PhpValues
  import opened Dicts
  import opened Models
  import opened Store
  import opened Entities

  /** The iterator: the parent object, its scratch copy, the buffered rows, their number and the position. */
  datatype DatasetIterator = DatasetIterator(parent: Entity, scratch: Entity, rows: seq<Row>, count: nat, pos: nat)

  /** A well-formed iterator counts exactly the rows it buffered. */
  predicate Counted(it: DatasetIterator) {
    it.count == |it.rows|
  }

  /** The constructor: the rows are buffered and counted, the position starts at 0, and the scratch object starts as a copy of the parent. */
  function NewIterator(parent: Entity, rows: seq<Row>): (r: DatasetIterator)
    ensures Counted(r) && r.rows == rows && r.pos == 0
    ensures r.parent == parent && r.scratch == parent
  {
    DatasetIterator(parent, parent, rows, |rows|, 0)
  }

  /** $this->result[$index]: a missing index reads as no row, so nothing is loaded. */
  function RowAt(rows: seq<Row>, index: int): Row {
    if 0 <= index < |rows| then rows[index] else map[]
  }

  /**
   * get($index): clear the scratch object, load the row into it with the
   * parent's _to_object(), and hand back that same object, which the iterator
   * keeps for the next call.
   */
  function Get(d: Descriptor, it: DatasetIterator, index: int, hook: RuleHook): (r: (DatasetIterator, Entity))
    ensures r.0.scratch == r.1
    ensures r.0.parent == it.parent && r.0.rows == it.rows && r.0.count == it.count && r.0.pos == it.pos
    ensures r.1.all.keys == [] && r.1.error == NoErrors && r.1.queryRelated == [] && r.1.streamed.None?
    ensures forall f :: f in d.fields ==> Col(r.1.item.stored, f) == Col(r.1.item.props, f)
  {
    var cleared := Clear(d, it.scratch);
    var obj := cleared.(item := ToObject(d, cleared.item, RowAt(it.rows, index), hook));
    (it.(scratch := obj), obj)
  }

  /** current(): the item at the current position. */
  function Current(d: Descriptor, it: DatasetIterator, hook: RuleHook): (DatasetIterator, Entity) {
    Get(d, it, it.pos, hook)
  }

  function Key(it: DatasetIterator): nat { it.pos }

  function Next(it: DatasetIterator): DatasetIterator { it.(pos := it.pos + 1) }

  function Rewind(it: DatasetIterator): DatasetIterator { it.(pos := 0) }

  predicate Valid(it: DatasetIterator) { it.pos < it.count }

  /** count() and its alias result_count(). */
  function Count(it: DatasetIterator): nat { it.count }

  // ---------------------------------------------------------------------------
  // Walking the iterator

  /** One call a caller can make on the iterator. */
  datatype Step = StepNext | StepRewind | StepCurrent | StepGet(index: int) | StepKey | StepValid | StepCount

  function Apply(d: Descriptor, it: DatasetIterator, s: Step, hook: RuleHook): DatasetIterator {
    match s
    case StepNext => Next(it)
    case StepRewind => Rewind(it)
    case StepCurrent => Current(d, it, hook).0
    case StepGet(i) => Get(d, it, i, hook).0
    case _ => it
    }

  /**
   * Any sequence of calls leaves the buffered rows, the count and the parent as
   * they were; the position is the number of next() calls since the last rewind().
   */
  function Run(d: Descriptor, it: DatasetIterator, steps: seq<Step>, hook: RuleHook): (r: DatasetIterator)
    ensures r.rows == it.rows && r.count == it.count && r.parent == it.parent
    ensures r.pos == (if StepRewind in steps then 0 else it.pos) + NextsAfterRewind(steps)
    decreases |steps|
  {
    if |steps| == 0 then it
    else
      var last := steps[|steps| - 1];
      var init := steps[..|steps| - 1];
      assert steps == init + [last];
      RewindInPrefix(init, last);
      Apply(d, Run(d, it, init, hook), last, hook)
  }

  /** The number of next() calls after the last rewind() (all of them, if there is none). */
  function NextsAfterRewind(steps: seq<Step>): nat
    decreases |steps|
  {
    if |steps| == 0 then 0
    else
      var last := steps[|steps| - 1];
      var init := steps[..|steps| - 1];
      if last == StepRewind then 0
      else NextsAfterRewind(init) + (if last == StepNext then 1 else 0)
  }

  lemma RewindInPrefix(init: seq<Step>, last: Step)
    ensures StepRewind in init + [last] <==> StepRewind in init || last == StepRewind
  {
    assert (init + [last])[|init|] == last;
  }

  /** count() and result_count() stay the number of rows buffered at construction, whatever was called. */
  lemma CountNeverChanges(d: Descriptor, parent: Entity, rows: seq<Row>, steps: seq<Step>, hook: RuleHook)
    ensures var it := Run(d, NewIterator(parent, rows), steps, hook);
      Count(it) == |rows| && Counted(it)
  {
  }

  /** After rewind() the iterator is at key 0, and is valid exactly when there is a row. */
  lemma RewindRestarts(it: DatasetIterator)
    requires Counted(it)
    ensures Key(Rewind(it)) == 0 && (Valid(Rewind(it)) <==> |it.rows| > 0)
    ensures Rewind(it).rows == it.rows && Rewind(it).count == it.count
  {
  }

  /** valid() holds at key k exactly when row k exists, and next() moves to key k + 1. */
  lemma ValidMeansRow(it: DatasetIterator)
    requires Counted(it)
    ensures Valid(it) <==> Key(it) < |it.rows|
    ensures Key(Next(it)) == Key(it) + 1
  {
  }

  /** Neither get-rules nor matched fields: a loaded object shows the row as it came. */
  predicate Plain(d: Descriptor) {
    |d.tracking.getRules| == 0 && d.tracking.matches.keys == []
  }

  /**
   * The items a loop yields from the current position: current(), then next(),
   * while valid(). Each item is a snapshot of the scratch object at the time;
   * for a plain descriptor the k-th one holds row pos + k in its declared fields.
   */
  function Visit(d: Descriptor, it: DatasetIterator, hook: RuleHook): (r: (DatasetIterator, seq<Entity>))
    ensures r.0.rows == it.rows && r.0.count == it.count && r.0.parent == it.parent && !Valid(r.0)
    ensures |r.1| == if it.pos < it.count then it.count - it.pos else 0
    ensures Plain(d) && Counted(it) ==> LoadsRowsFrom(d, r.1, it.rows, it.pos)
    decreases it.count - it.pos
  {
    if !Valid(it) then (it, [])
    else
      var g := Current(d, it, hook);
      var rest := Visit(d, Next(g.0), hook);
      CurrentLoadsRow(d, it, hook);
      ConsLoads(d, g.1, rest.1, it.rows, it.pos);
      (rest.0, [g.1] + rest.1)
  }

  /** foreach over the iterator: rewind(), then visit. */
  function ForEach(d: Descriptor, it: DatasetIterator, hook: RuleHook): (r: (DatasetIterator, seq<Entity>))
    ensures Counted(it) ==> |r.1| == |it.rows| && Counted(r.0)
    ensures Plain(d) && Counted(it) ==> LoadsRowsFrom(d, r.1, it.rows, 0)
  {
    Visit(d, Rewind(it), hook)
  }

  lemma CurrentLoadsRow(d: Descriptor, it: DatasetIterator, hook: RuleHook)
    requires Valid(it)
    ensures Plain(d) && Counted(it) ==> LoadsRow(d, Current(d, it, hook).1, it.rows[it.pos])
  {
    if Plain(d) && Counted(it) {
      LoadedFromRow(d, Clear(d, it.scratch).item, it.rows[it.pos], hook);
    }
  }

  /** Items hold rows from `start` on exactly when the first holds row `start` and the rest hold the following ones. */
  lemma ConsLoads(d: Descriptor, first: Entity, rest: seq<Entity>, rows: seq<Row>, start: nat)
    ensures LoadsRowsFrom(d, [first] + rest, rows, start) <==>
      start < |rows| && LoadsRow(d, first, rows[start]) && LoadsRowsFrom(d, rest, rows, start + 1)
  {
    assert ([first] + rest)[0] == first;
    assert ([first] + rest)[1..] == rest;
  }

  /** The items hold the rows from `start` on, one each, in order. */
  predicate LoadsRowsFrom(d: Descriptor, items: seq<Entity>, rows: seq<Row>, start: nat)
    decreases |items|
  {
    |items| == 0 || (start < |rows| && LoadsRow(d, items[0], rows[start]) && LoadsRowsFrom(d, items[1..], rows, start + 1))
  }

  /** Items that hold the rows from the first on: item k holds row k. */
  lemma LoadsEach(d: Descriptor, items: seq<Entity>, rows: seq<Row>)
    requires LoadsRowsFrom(d, items, rows, 0)
    ensures |items| <= |rows|
    ensures forall k :: 0 <= k < |items| ==> LoadsRow(d, items[k], rows[k])
  {
    if |items| > 0 {
      LoadsRowAt(d, items, rows, 0, |items| - 1);
    }
    forall k | 0 <= k < |items|
      ensures LoadsRow(d, items[k], rows[k])
    {
      LoadsRowAt(d, items, rows, 0, k);
    }
  }

  /** Item k of items that hold the rows from `start` on holds row start + k. */
  lemma {:induction false} LoadsRowAt(d: Descriptor, items: seq<Entity>, rows: seq<Row>, start: nat, k: nat)
    requires LoadsRowsFrom(d, items, rows, start) && k < |items|
    ensures start + k < |rows| && LoadsRow(d, items[k], rows[start + k])
    decreases k
  {
    if k > 0 {
      LoadsRowAt(d, items[1..], rows, start + 1, k - 1);
      assert items[1..][k - 1] == items[k];
    }
  }

  /** An object holds a row's values in its declared fields, with integers forced on tracked ones. */
  predicate LoadsRow(d: Descriptor, e: Entity, row: Row) {
    forall f :: f in d.fields ==>
      Col(e.item.props, f) == (if f in d.tracking.intval then (if IsSet(Col(row, f)) then Int(IntVal(Col(row, f))) else Null) else Col(row, f))
  }

  /**
   * The rows can be walked again: a second foreach yields as many items as the
   * first, and (without get-rules or matched fields) the same field values.
   */
  lemma WalkTwice(d: Descriptor, it: DatasetIterator, hook: RuleHook)
    requires Plain(d)
    requires Counted(it)
    ensures var first := ForEach(d, it, hook);
      var second := ForEach(d, first.0, hook);
      |second.1| == |first.1| == |it.rows|
      && forall k :: 0 <= k < |it.rows| ==> LoadsRow(d, first.1[k], it.rows[k]) && LoadsRow(d, second.1[k], it.rows[k])
  {
    var first := ForEach(d, it, hook);
    var second := ForEach(d, first.0, hook);
    LoadsEach(d, first.1, it.rows);
    LoadsEach(d, second.1, it.rows);
  }

  /** Loading items never touches the parent object. */
  lemma ParentUntouched(d: Descriptor, it: DatasetIterator, hook: RuleHook)
    ensures ForEach(d, it, hook).0.parent == it.parent
    ensures forall i :: Get(d, it, i, hook).0.parent == it.parent
  {
  }

  // ---------------------------------------------------------------------------
  // get_iterated(), result_count() and getIterator()

  /** The object after get_iterated(), with the iterator it now holds. */
  datatype Iterated = Iterated(e: Entity, it: DatasetIterator)

  /**
   * get_iterated(): the iterator's parent is a copy of the object without its
   * query-related list; the object records the iterator, so result_count()
   * reports the buffered rows.
   */
  function GetIterated(e: Entity, rows: seq<Row>): (r: Iterated)
    ensures ResultCount(r.e) == Count(r.it) == |rows|
    ensures r.it.parent.queryRelated == [] && r.it.pos == 0 && Counted(r.it)
  {
    var parent := e.(queryRelated := []);
    Iterated(e.(streamed := Some(|rows|)), NewIterator(parent, rows))
  }

  /** What foreach walks over: the attached dataset iterator, or the `all` array. */
  datatype Iteration = Streamed(it: DatasetIterator) | Buffered(items: seq<Item>)

  /** getIterator(): the dataset iterator when one is attached, otherwise the `all` array in its order. */
  function GetIterator(e: Entity, attached: Option<DatasetIterator>): (r: Iteration)
    requires e.all.Valid()
    ensures r.Streamed? <==> attached.Some?
    ensures r.Streamed? ==> r.it == attached.value
    ensures r.Buffered? ==> |r.items| == |e.all.keys|
    ensures r.Buffered? ==> forall j :: 0 <= j < |r.items| ==> r.items[j] == e.all.vals[e.all.keys[j]]
  {
    match attached
    case Some(it) => Streamed(it)
    case None => Buffered(seq(|e.all.keys|, j requires 0 <= j < |e.all.keys| => e.all.vals[e.all.keys[j]]))
  }

  /** result_count() agrees with what getIterator() walks over after get_iterated(). */
  lemma IteratedCountsAgree(e: Entity, rows: seq<Row>)
    ensures var g := GetIterated(e, rows);
      ResultCount(g.e) == Count(g.it) == |rows|
      && (g.e.all.Valid() ==> GetIterator(g.e, Some(g.it)) == Streamed(g.it))
  {
  }
}
