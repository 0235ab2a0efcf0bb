/**
 * Typed references into one entity family. A reference carries the kind
 * tag of the entity it designates and its original id; two references are
 * equal exactly when both fields are.
 */
module References {

  /**
   * The original id of an entity: given by the input deck, or allocated by
   * the model for entities the translator creates itself.
   */
  datatype OriginalId = Given(value: int) | Auto(serial: nat)

  datatype Reference<K> = Reference(kind: K, id: OriginalId)

  /** The reference points to no auto-allocated id at or above `bound`. */
  predicate AutoBelow<K>(r: Reference<K>, bound: nat)
  {
    r.id.Auto? ==> r.id.serial < bound
  }

  /** Kinds of numeric values that loadings and objectives refer to. */
  datatype ValueType = DynaPhaseValue | FunctionTableValue | StepRangeValue | OtherValue

  type ValueRef = Reference<ValueType>

  /** A value reference resolves to a value of the expected kind. */
  predicate ResolvesTo(values: map<ValueRef, ValueType>, r: ValueRef, expected: ValueType)
  {
    r in values && values[r] == expected
  }
}
