/** A sample: its in-phase and quadrature, or real and imaginary, parts. */
module Pairs {
  datatype Pair<T> = Pair(re: T, im: T)
}
