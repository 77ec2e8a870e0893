/**
 Shared result and error types of the bs (sidecar agent) model.

 Go reports failures as `error` values next to the result; here a failure is an
 `Error` and a fallible computation returns a `Result`.
 */
module Common {

  datatype Option<+T> = None | Some(value: T)

  /** The errors the core distinguishes; everything a foreign call reports
      without the core looking at it is `Other`. */
  datatype Error =
    | CannotSet(name: string)   // an override uses a reserved variable name
    | NotFound                  // the store has no bs configuration record
    | DuplicateKey              // the store refused an insert of an existing key
    | AlreadyExists             // the node already has a container with that name
    | Other(msg: string)        // any other failure of the store, runtime or auth service

  datatype Result<+T> = Ok(value: T) | Err(error: Error)

  /** The text of an error. `CannotSet` is the text the code formats
      itself; the other texts stand in for those of the store, the docker
      client and the authentication service (a duplicate key, say, is
      reported with the server's own "E11000 duplicate key error ..."). */
  function Message(e: Error): string
  {
    match e
    case CannotSet(name) => "cannot set " + name + " variable"
    case NotFound => "not found"
    case DuplicateKey => "duplicate key error"
    case AlreadyExists => "container already exists"
    case Other(msg) => msg
  }
}
