module Basics {

  datatype Option<+T> = None | Some(value: T)

  /** How one reconcile ends: with its success persisted, or stopped short of that. */
  datatype Outcome = Done | Failed

  lemma PlusAssociates<K, V>(a: map<K, V>, b: map<K, V>, c: map<K, V>)
    ensures (a + b) + c == a + (b + c)
  {
  }
}
