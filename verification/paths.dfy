/** Addresses of nested values inside arrays and objects. */
module Paths {

  /** One step down into a composite value: an array position or an object key. */
  datatype Step = Index(i: nat) | Key(k: string)

  /** A route from a value to one of its nested values; empty means the value itself. */
  type Path = seq<Step>
}
