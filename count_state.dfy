/** CountOfElementsState: a state that is just the number of elements on the page. */
module CountOfElements {
  import opened Wrappers
  import opened StateDifferences

  /** `diff`: nothing when the counts agree, one "numElements" difference (this count,
      the other count) when they do not; a state of another class throws. */
  function Diff(numElements: int, otherState: State): (r: Result<seq<StateDifference>, StateError>)
    ensures !otherState.CountOfElementsState? <==> r == Failure(InvalidStateClass)
    ensures otherState.CountOfElementsState? && numElements == otherState.numElements ==> r == Success([])
    ensures otherState.CountOfElementsState? && numElements != otherState.numElements ==>
              r == Success([PropertyValue(None, "numElements", IntValue(numElements), IntValue(otherState.numElements))])
  {
    if !otherState.CountOfElementsState? then Failure(InvalidStateClass)
    else
      var other := otherState.numElements;
      if numElements != other then
        Success([PropertyValue(None, "numElements", IntValue(numElements), IntValue(other))])
      else Success([])
  }

  /** `equals`: a state of another class is unequal; otherwise the diff must be empty. */
  function Equals(numElements: int, other: State): bool {
    if !other.CountOfElementsState? then false
    else Diff(numElements, other).value == []
  }

  /** Equality tracks the count, and so is reflexive and symmetric. */
  lemma EqualsIsCountEquality(a: int, b: int)
    ensures Equals(a, CountOfElementsState(b)) <==> a == b
    ensures Equals(a, CountOfElementsState(a))
    ensures Equals(a, CountOfElementsState(b)) == Equals(b, CountOfElementsState(a))
  {
  }
}
