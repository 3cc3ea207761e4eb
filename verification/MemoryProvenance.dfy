/** Byte ranges and range verdicts of src/backend/bir/bir_memory_provenance.hpp. */
module MemoryProvenance {
  import opened Machine

  datatype Completeness = UnknownExtent | Complete | Partial
  datatype ObjectExtent = ObjectExtent(completeness: Completeness, size: U64, sizeKnown: bool)
  datatype RangeVerdict = UnknownCompatible | ProvenInBounds | ProvenOutOfBounds
  datatype ArrayVerdict = UnknownRange | BoundedByElementCount | Unbounded

  datatype ByteRange =
    ByteRange(available: bool, begin: I64, size: U64, end: I64, endAvailable: bool, overflowed: bool)

  datatype ArrayFacts = ArrayFacts(available: bool, elementCount: U64, stride: U64, base: U64)

  /**
   The range of `size` bytes from `offset`. Its end is exact whenever it is given; the overflow flag
   is set exactly when the size or the end does not fit `int64_t`.
   */
  function MakeByteRange(offset: I64, size: U64): (r: ByteRange)
    ensures r.available && r.begin == offset && r.size == size
    ensures r.overflowed <==> size > INT64_MAX || offset + size > INT64_MAX
    ensures r.endAvailable <==> !r.overflowed
    ensures r.endAvailable ==> r.end == offset + size
  {
    if size > INT64_MAX then ByteRange(true, offset, size, 0, false, true)
    else
      var delta: I64 := size;
      var limit: I64 := INT64_MAX - delta;
      if offset > limit then ByteRange(true, offset, size, 0, false, true)
      else
        var end: I64 := offset + delta;
        ByteRange(true, offset, size, end, true, false)
  }

  predicate WellOrdered(r: ByteRange)
  {
    !r.overflowed && r.endAvailable && r.begin >= 0 && r.end >= r.begin
  }

  class AccessProvenance {
    var objectExtent: ObjectExtent
    var requested: ByteRange
    var facts: ArrayFacts
    var arrayVerdict: ArrayVerdict
    var rangeVerdict: RangeVerdict

    constructor (objectExtent: ObjectExtent, requested: ByteRange, facts: ArrayFacts)
      ensures this.objectExtent == objectExtent && this.requested == requested && this.facts == facts
      ensures arrayVerdict == UnknownRange && rangeVerdict == UnknownCompatible
    {
      this.objectExtent := objectExtent;
      this.requested := requested;
      this.facts := facts;
      arrayVerdict := UnknownRange;
      rangeVerdict := UnknownCompatible;
    }

    /** Every product and sum taken here is below 2^64: the variables are typed that way. */
    method ProveDynamicArrayRange()
      modifies this`arrayVerdict
      ensures arrayVerdict == ArrayVerdictOf(facts, requested)
    {
      arrayVerdict := UnknownRange;
      if !facts.available || facts.elementCount == 0 || facts.stride == 0 || !requested.available ||
        !WellOrdered(requested) {
        return;
      }
      QuotientBound(facts.elementCount, facts.stride);
      if facts.elementCount > SIZE_MAX / facts.stride {
        return;
      }
      var arraySize: U64 := facts.elementCount * facts.stride;
      if facts.base > SIZE_MAX - arraySize {
        return;
      }
      var begin: U64, end: U64 := requested.begin, requested.end;
      var arrayEnd: U64 := facts.base + arraySize;
      arrayVerdict := if begin >= facts.base && end <= arrayEnd then BoundedByElementCount else Unbounded;
    }

    method ProveRequestedRange()
      modifies this`arrayVerdict, this`rangeVerdict
      ensures arrayVerdict == ArrayVerdictOf(facts, requested)
      ensures rangeVerdict == RangeVerdictOf(objectExtent, requested)
    {
      rangeVerdict := UnknownCompatible;
      ProveDynamicArrayRange();
      if !requested.available || !objectExtent.sizeKnown || !objectExtent.completeness.Complete? {
        return;
      }
      if !WellOrdered(requested) {
        rangeVerdict := ProvenOutOfBounds;
        return;
      }
      var begin: U64, end: U64 := requested.begin, requested.end;
      rangeVerdict :=
        if begin <= objectExtent.size && end <= objectExtent.size then ProvenInBounds else ProvenOutOfBounds;
    }
  }

  /** The array verdict over unbounded integers: no division, no machine limits but the final ones. */
  ghost function ArrayVerdictOf(facts: ArrayFacts, r: ByteRange): ArrayVerdict
  {
    var end := facts.base + facts.elementCount * facts.stride;
    if !facts.available || facts.elementCount == 0 || facts.stride == 0 || !r.available || !WellOrdered(r) ||
      end > SIZE_MAX
    then UnknownRange
    else if facts.base <= r.begin && r.end <= end then BoundedByElementCount
    else Unbounded
  }

  ghost function RangeVerdictOf(o: ObjectExtent, r: ByteRange): RangeVerdict
  {
    if !r.available || !o.sizeKnown || !o.completeness.Complete? then UnknownCompatible
    else if WellOrdered(r) && r.end <= o.size then ProvenInBounds
    else ProvenOutOfBounds
  }

  /** Comparing with the quotient is comparing the product with the limit. */
  lemma QuotientBound(count: U64, stride: U64)
    requires stride > 0
    ensures count > SIZE_MAX / stride <==> count * stride > SIZE_MAX
  {
    var q, r := SIZE_MAX / stride, SIZE_MAX % stride;
    assert SIZE_MAX == q * stride + r && 0 <= r < stride;
    if count > q {
      MulMonotone(q + 1, count, stride);
      assert (q + 1) * stride == q * stride + stride;
    } else {
      MulMonotone(count, q, stride);
    }
  }

  lemma MulMonotone(a: int, b: int, k: nat)
    requires a <= b
    ensures a * k <= b * k
  {
    assert (b - a) * k >= 0;
    assert b * k == a * k + (b - a) * k;
  }

  /**
   For a complete object of known size, a made range is in bounds exactly when its integer interval
   lies inside the object and ends below 2^63; objects of at most INT64_MAX bytes need no second clause.
   */
  lemma InBoundsExact(offset: I64, size: U64, o: ObjectExtent)
    requires o.sizeKnown && o.completeness.Complete?
    ensures var v := RangeVerdictOf(o, MakeByteRange(offset, size));
            && (v == ProvenInBounds <==> 0 <= offset && offset + size <= o.size && offset + size <= INT64_MAX)
            && (v == ProvenOutOfBounds <==> v != ProvenInBounds)
            && (o.size <= INT64_MAX ==> (v == ProvenInBounds <==> 0 <= offset && offset + size <= o.size))
  {
  }

  /** Nothing is proved of an object that is partial or unknown, or whose size is; of any other, something is. */
  lemma UndecidedExact(offset: I64, size: U64, o: ObjectExtent)
    ensures RangeVerdictOf(o, MakeByteRange(offset, size)) == UnknownCompatible <==>
            !o.sizeKnown || o.completeness == Partial || o.completeness == UnknownExtent
  {
  }

  /** Beyond INT64_MAX the verdict is conservative: this access is inside its object but called out of bounds. */
  lemma HugeObjectCounterexample()
    ensures var o := ObjectExtent(Complete, SIZE_MAX, true);
            RangeVerdictOf(o, MakeByteRange(1, INT64_MAX)) == ProvenOutOfBounds && 1 + INT64_MAX <= o.size
  {
  }

  /**
   The array verdict is exact whenever there is an array, it fits `size_t` and the request starts at or
   above 0 with an end that fits `int64_t`; otherwise there is none.
   */
  lemma ArrayVerdictExact(offset: I64, size: U64, facts: ArrayFacts)
    ensures var v := ArrayVerdictOf(facts, MakeByteRange(offset, size));
            var end := facts.base + facts.elementCount * facts.stride;
            var representable := end <= SIZE_MAX && 0 <= offset && size <= INT64_MAX && offset + size <= INT64_MAX;
            var known := facts.available && facts.elementCount > 0 && facts.stride > 0 && representable;
            && (v == UnknownRange <==> !known)
            && (v == BoundedByElementCount <==> known && facts.base <= offset && offset + size <= end)
  {
  }
}
