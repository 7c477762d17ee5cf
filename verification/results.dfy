/** Small failure-carrying datatypes used across the model: `std::optional`
    and the setup errors that the renderer turns into `exit(-1)`. */
module Results {

  /** `std::optional<T>`: `None` is `std::nullopt`. */
  datatype Option<+T> = None | Some(value: T)

  /** Why a setup step gave up; each stands for one `exit(-1)` path. */
  datatype SetupError =
    | MissingInstanceExtension(name: string)
    | MissingDeviceExtensions(names: seq<string>)
    | NoSuitableQueueFamily

  /** The outcome of a setup step that produces no value. */
  datatype Outcome = Pass | Fail(error: SetupError)

  /** The outcome of a setup step that produces a value. */
  datatype Result<+T> = Ok(value: T) | Err(error: SetupError)
}
