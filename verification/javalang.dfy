/** The small part of the Java language both list implementations rely on:
    nullable references, the exceptions they throw, and value-or-exception
    results. */
module JavaLang {

  /** A Java reference to an element: `null`, or an object with a value.
      Lists hold `Ref`s, so a list may contain `null` like any other element. */
  datatype Ref<T> = Null | Obj(value: T)

  /** `o == null ? x == null : o.equals(x)`, the null-aware test every search
      of both lists uses; `equals` is taken to be value equality. */
  predicate Matches<T(==)>(o: Ref<T>, x: Ref<T>) {
    match o
    case Null => x.Null?
    case Obj(v) => x.Obj? && v == x.value
  }

  /** The exceptions the two lists raise. */
  datatype Exception =
    | IndexOutOfBounds        // IndexOutOfBoundsException from a range check
    | ArrayIndexOutOfBounds   // a raw array access or System.arraycopy out of bounds
    | NegativeArraySize       // Arrays.copyOf with a negative length
    | NoSuchElement
    | IllegalState
    | IllegalArgument
    | ConcurrentModification
    | OutOfMemory
    | CallbackFailure         // whatever a caller-supplied callback threw

  /** ArrayIndexOutOfBoundsException is a subclass of IndexOutOfBoundsException,
      so a `catch (IndexOutOfBoundsException)` catches both. */
  predicate IsIndexOutOfBounds(e: Exception) {
    e == IndexOutOfBounds || e == ArrayIndexOutOfBounds
  }

  /** The value a call returns, or the exception it throws. */
  datatype Result<+X> = Ok(value: X) | Err(error: Exception)

  /** A call on a mutable object: the object's state afterwards (which Java does
      not roll back when an exception escapes) and what the call returned. */
  datatype Outcome<+S, +X> = Outcome(state: S, result: Result<X>)

  /** A traversal that hands elements to a consumer: the traversal's state
      afterwards, the elements the consumer accepted, in order, and the
      exception thrown after them, if any. The consumer keeps what it
      accepted even when the traversal then throws. */
  datatype Traversal<+S, +X> = Traversal(state: S, accepted: seq<X>, thrown: Option<Exception>)

  /** An optional value; `None` stands for a `null` return that is not an element. */
  datatype Option<+X> = None | Some(value: X)
}
