/** Outcome types shared by the model. A .NET `null` becomes `None`, and a
    thrown exception (whatever its type or message) becomes `Fail`. */
module Results {

  datatype Option<+T> = None | Some(value: T)

  datatype Result<+T> = Ok(value: T) | Fail
}
