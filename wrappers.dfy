/** Results of the script's operations: a value, or the Python exception the
    script would raise instead. */
module Wrappers {

  datatype Option<+T> = None | Some(value: T)

  /** The exceptions the modelled code can raise, one constructor per cause. */
  datatype Failure =
    | CityIndexError        // IndexError: `city[0]` on an empty city
    | CountryValueError     // ValueError: country holds a space or is not 2 characters long
    | MissingList           // KeyError: the forecast document has no "list" key
    | MissingTime           // IndexError: the timestamp has no second space-separated field
    | NotAnInteger          // ValueError: `int(x)` on a date field that is not a decimal integer
    | DateArity             // TypeError: the date part does not have exactly three fields
    | DateArgOverflow       // OverflowError: a date field does not fit a C int
    | DateOutOfRange        // ValueError: year, month or day outside the calendar
    | UnknownWeekday        // KeyError: an entry's weekday is not a key of the buckets
    | DateOverflow          // OverflowError: adding a day passes 9999-12-31
    | MissingBucket         // KeyError: a day of the five has no bucket
    | EmptyBucket           // statistics.StatisticsError: mean of an empty bucket

  datatype Result<+T> = Ok(value: T) | Err(error: Failure)
}
