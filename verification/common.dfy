/** Shared vocabulary of the memory-management model: optional values,
    results that carry one of the kernel's error kinds, and the page size. */
module Common {

  /** The size in bytes of a physical frame and of a virtual page. */
  const PageSize: nat := 4096

  /** Stands in for a pointer or frame number that may be absent (NULL, or
      the sentinel 0 the allocators return on failure). */
  datatype Option<+T> = None | Some(value: T)

  /** The ways an operation of the core can fail. */
  datatype Error =
    | CapacityExhausted   // no run of free frames, or no room in a VM pool
    | OutOfRange          // a frame number outside the pool it was sent to
    | NotFree             // reserving a frame that is already taken
    | AccessViolation     // a fault address that no registered VM pool claims
    | RegionNotFound      // releasing an address that starts no VM region
    | AssertionFailed     // a failed `assert` in the kernel, which halts it

  datatype Result<+T> = Ok(value: T) | Err(error: Error)
}
