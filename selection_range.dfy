/** SelectionRange: an interval with outer bounds and an inner "effective" interval. */
module Ranges {

  /** The four fields of a range, as a value. */
  datatype Bounds = Bounds(start: int, end: int, effectiveStart: int, effectiveEnd: int) {

    /** The ordering the checks of the range's constructor and setters maintain. */
    predicate Checked() {
      0 <= start && 0 <= effectiveStart <= effectiveEnd <= end && start <= effectiveEnd
    }

    /** The full nesting order; its `start <= effectiveStart` part is not checked by the range itself. */
    predicate Ordered() {
      0 <= start <= effectiveStart <= effectiveEnd <= end
    }

    /** The checks of setEffectiveStart(value); the second one compares `end` with `start`, not `value`. */
    predicate AcceptsEffectiveStart(value: int) {
      0 <= value && end >= start && value <= effectiveEnd && value <= end
    }

    /** The checks of setEffectiveEnd(value). */
    predicate AcceptsEffectiveEnd(value: int) {
      0 <= value && value >= start && value >= effectiveStart && value <= end
    }

    /** The checks of setEnd(value). */
    predicate AcceptsEnd(value: int) {
      0 <= value && value >= start && value >= effectiveStart && value >= effectiveEnd
    }
  }

  /**
   * Whether `new SelectionRange(start, end, effectiveStart, effectiveEnd)` passes its
   * checks: the two bounds checks, then setEffectiveEnd while effectiveStart still
   * holds its default 0, then setEffectiveStart.
   */
  function ConstructorAccepts(start: int, end: int, effectiveStart: int, effectiveEnd: int): (accepted: bool)
    ensures accepted <==> Bounds(start, end, effectiveStart, effectiveEnd).Checked()
  {
    && 0 <= start && 0 <= end
    && Bounds(start, end, 0, 0).AcceptsEffectiveEnd(effectiveEnd)
    && Bounds(start, end, 0, effectiveEnd).AcceptsEffectiveStart(effectiveStart)
  }

  class SelectionRange {
    const start: int
    var end: int
    var effectiveStart: int
    var effectiveEnd: int

    function Value(): Bounds
      reads this
    {
      Bounds(start, end, effectiveStart, effectiveEnd)
    }

    /** The constructor stores both bounds, then runs the two effective-bound setters. */
    constructor (start: int, end: int, effectiveStart: int, effectiveEnd: int)
      requires ConstructorAccepts(start, end, effectiveStart, effectiveEnd)
      ensures Value() == Bounds(start, end, effectiveStart, effectiveEnd)
      ensures Value().Checked()
    {
      this.start := start;
      this.end := end;
      this.effectiveStart := 0;
      this.effectiveEnd := 0;
      new;
      var effectiveEndAccepted := SetEffectiveEnd(effectiveEnd);
      var effectiveStartAccepted := SetEffectiveStart(effectiveStart);
      assert effectiveEndAccepted && effectiveStartAccepted;
    }

    /** Sets effectiveStart if all its checks pass; a rejected value changes nothing. */
    method SetEffectiveStart(value: int) returns (accepted: bool)
      modifies this`effectiveStart
      ensures accepted == old(Value()).AcceptsEffectiveStart(value)
      ensures Value() == if accepted then old(Value()).(effectiveStart := value) else old(Value())
      ensures old(Value()).Checked() ==> Value().Checked()
    {
      accepted := Value().AcceptsEffectiveStart(value);
      if accepted {
        effectiveStart := value;
      }
    }

    /** Sets effectiveEnd if all its checks pass; a rejected value changes nothing. */
    method SetEffectiveEnd(value: int) returns (accepted: bool)
      modifies this`effectiveEnd
      ensures accepted == old(Value()).AcceptsEffectiveEnd(value)
      ensures Value() == if accepted then old(Value()).(effectiveEnd := value) else old(Value())
      ensures old(Value()).Checked() ==> Value().Checked()
    {
      accepted := Value().AcceptsEffectiveEnd(value);
      if accepted {
        effectiveEnd := value;
      }
    }

    /** Sets end if all its checks pass; a rejected value changes nothing. */
    method SetEnd(value: int) returns (accepted: bool)
      modifies this`end
      ensures accepted == old(Value()).AcceptsEnd(value)
      ensures Value() == if accepted then old(Value()).(end := value) else old(Value())
      ensures old(Value()).Checked() ==> Value().Checked()
    {
      accepted := Value().AcceptsEnd(value);
      if accepted {
        end := value;
      }
    }
  }
}
