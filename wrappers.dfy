/** Option and Result values used throughout the model in place of
    std::optional and of thrown exceptions. */
module Wrappers {

  datatype Option<+T> = None | Some(value: T) {
    function GetOr(default: T): T {
      match this
      case Some(v) => v
      case None => default
    }
  }

  /** A rejected input. It stands for an `aoc::parse_exception`, whose
      constructor text, if any, is `message`. Where a parser calls
      `std::stoll` or `std::stoull`, it also stands for the
      `std::invalid_argument` or `std::out_of_range` they throw; those are
      not `aoc::aoc_exception`s, so the source program ends there instead
      (see README, "Left out"). */
  datatype ParseError = ParseError(message: string)

  datatype Result<+T> = Ok(value: T) | Err(error: ParseError)
}
