/** Values that cross the dictionary's interface: Java objects used as keys and
    elements, and the exceptions the tree and its comparator throw. */
module Objects {

  /** Java's `int`: the payload of a boxed `Integer`. */
  newtype int32 = x: int | -0x8000_0000 <= x < 0x8000_0000

  /** An `Object` handed to the dictionary. Only boxed `Integer`s are comparable;
      every other object is identified by an opaque number. */
  datatype Obj = IntObj(v: int32) | Other(id: nat)

  /** The exceptions of the core: the comparator's `InvalidObjectException` and
      the tree's `ElementNotFoundException`. */
  datatype Failure = InvalidObject | ElementNotFound

  /** A call that either returns a value or throws. */
  datatype Result<+T> = Ok(value: T) | Err(error: Failure)

  /** A `void` call that either returns normally or throws. */
  datatype Outcome = Pass | Fail(error: Failure)

  /** A Java reference that may be `null`. */
  datatype Option<+T> = None | Some(value: T)
}
