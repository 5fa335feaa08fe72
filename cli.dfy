/**
  The year check of the command-line loop: a parsed range `start`-`end` is
  rejected when a non-zero start lies before 1998, the end lies after 2025,
  or the range is reversed; the loop asks again until `start` is non-zero
  after the check.
*/
module Cli {
  /** `start and start < 1998 or end > 2025 or start > end`. */
  predicate YearRangeRejected(start: int, end: int) {
    (start != 0 && start < 1998) || end > 2025 || start > end
  }

  /** The range ends the year loop: the check passed and left `start` non-zero. */
  function YearsAccepted(start: int, end: int): (ok: bool)
    ensures ok <==> 1998 <= start <= end <= 2025
  {
    start != 0 && !YearRangeRejected(start, end)
  }
}
