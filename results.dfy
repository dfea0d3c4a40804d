/** Failure-compatible wrappers and the error conditions the route generator reports. */
module Results {

  datatype Option<+T> = None | Some(value: T) {
    /** `Option::or`: this value when present, otherwise `other`. */
    function Or(other: Option<T>): Option<T>
    {
      if Some? then this else other
    }
  }

  /** One constructor per error message the program formats. */
  datatype Error =
    | TooShortComponent(hostname: string)          // a dot-separated label of a hostname is empty
    | TooShortHostname(hostname: string)           // a hostname has a single label
    | NameserverLookupFailed                       // the address lookup of a nameserver hostname failed
    | EmptyNameserverAnswer                        // that lookup answered with no address
    | BadNameserverAddr(addr: string)              // a nameserver string is not an IPv4 address
    | NoPort(pair: string)                         // an "ADDR:PORT" field has no ':'
    | BadIpPortLength(pair: string)                // ADDR is not 8 characters or PORT not 4
    | BadHex(digits: string)                       // a two-character group is not a hex byte
    | NotEnoughFields(proto: string, line: string) // a connection-table line has fewer than 3 fields
    | Capture(message: string)                     // reading a capture file failed (outside this model)

  /** `Result<T, String>` of the source; `:-` plays the part of Rust's `?`. */
  datatype Result<+T> = Ok(value: T) | Err(error: Error) {
    predicate IsFailure() {
      Err?
    }

    function PropagateFailure<U>(): Result<U>
      requires Err?
    {
      Err(error)
    }

    function Extract(): T
      requires Ok?
    {
      value
    }
  }
}
