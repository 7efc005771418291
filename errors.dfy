/**
 * The single failure kind of the chip constructors: `std::invalid_argument`,
 * thrown when a counter is built with an out-of-range LimitReset.
 */
module Errors {

  datatype Result<T> = Ok(value: T) | InvalidArgument
}
