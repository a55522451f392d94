/** A value that the page may receive as `null` or `undefined`.
    Both JavaScript spellings of "no value" are the single case `Absent`:
    the nullish operator of the page (`??`) does not tell them apart. */
module Nullable {

  datatype Nullable<+T> = Absent | Present(value: T)
}
