/**
  The six-value sample container `AccelerometerData` and its hand-written
  iterator: `__iter__` parks the index just before the first element, each
  `__next__` advances it and yields an element or signals `StopIteration`.
 */
module Samples {

  /** What one call of `__next__` produces. `AttributeError` is Python's answer
      when `__next__` runs before any `__iter__` has created the index field. */
  datatype Step = Item(value: real) | StopIteration | AttributeError

  datatype Index = Unset | At(k: int)

  class AccelerometerData {
    // Positions of the axes in a sample.
    static const AccXIdx: nat := 0
    static const AccYIdx: nat := 1
    static const AccZIdx: nat := 2
    static const GyrXIdx: nat := 3
    static const GyrYIdx: nat := 4
    static const GyrZIdx: nat := 5

    /** [acc_x, acc_y, acc_z, gyr_x, gyr_y, gyr_z]; assigned once, by the constructor. */
    const data: seq<real>
    /** The iteration index; `Unset` until the first `__iter__`. */
    var iterIdx: Index

    ghost predicate Valid()
      reads this
    {
      |data| == 6 && (iterIdx.At? ==> iterIdx.k >= -1)
    }

    constructor (data: seq<real>)
      requires |data| == 6
      ensures Valid()
      ensures this.data == data && iterIdx == Unset
    {
      this.data := data;
      iterIdx := Unset;
    }

    /** `__iter__`: restart the traversal and hand back this very object. */
    method Iter() returns (it: AccelerometerData)
      requires Valid()
      modifies this`iterIdx
      ensures Valid()
      ensures it == this && iterIdx == At(-1)
    {
      iterIdx := At(-1);
      it := this;
    }

    /** `__next__`: advance the index, then yield the element there if there is one. */
    method Next() returns (step: Step)
      requires Valid()
      modifies this`iterIdx
      ensures Valid()
      ensures old(iterIdx) == Unset ==> iterIdx == Unset && step == AttributeError
      ensures old(iterIdx).At? ==> iterIdx == At(old(iterIdx).k + 1)
      ensures old(iterIdx).At? && old(iterIdx).k + 1 < |data| ==> step == Item(data[old(iterIdx).k + 1])
      ensures old(iterIdx).At? && old(iterIdx).k + 1 >= |data| ==> step == StopIteration
    {
      match iterIdx
      case Unset =>
        step := AttributeError;
      case At(k) =>
        iterIdx := At(k + 1);
        if k + 1 < |data| {
          step := Item(data[k + 1]);
        } else {
          step := StopIteration;
        }
    }
  }

  /** The axis constants name the six slots, in the order acc x, y, z, gyr x, y, z. */
  lemma AxisIndicesAreTheSlots()
    ensures [AccelerometerData.AccXIdx, AccelerometerData.AccYIdx, AccelerometerData.AccZIdx,
             AccelerometerData.GyrXIdx, AccelerometerData.GyrYIdx, AccelerometerData.GyrZIdx]
            == [0, 1, 2, 3, 4, 5]
  {
  }

  /** Python's iteration protocol as a `for` loop or `csv.writer.writerow` drives
      it: call `iter()`, then `next()` until `StopIteration`, collecting the items. */
  method IterateAll(s: AccelerometerData) returns (items: seq<real>)
    requires s.Valid()
    modifies s`iterIdx
    ensures s.Valid()
    ensures items == s.data
    ensures s.iterIdx == At(|s.data|)
  {
    var it := s.Iter();
    items := [];
    var step := it.Next();
    while step.Item?
      invariant it == s && s.Valid()
      invariant |items| <= |s.data|
      invariant items == s.data[..|items|]
      invariant s.iterIdx == At(|items|)
      invariant step == if |items| < |s.data| then Item(s.data[|items|]) else StopIteration
      decreases |s.data| - |items|
    {
      items := items + [step.value];
      step := it.Next();
    }
    assert items == s.data;
  }

  /** Iterating twice yields the same six values both times, and in axis order. */
  method IterateTwice(s: AccelerometerData) returns (first: seq<real>, second: seq<real>)
    requires s.Valid()
    modifies s`iterIdx
    ensures first == second == s.data
    ensures |first| == 6
  {
    first := IterateAll(s);
    second := IterateAll(s);
  }
}
