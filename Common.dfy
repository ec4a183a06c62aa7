/** Shared result types: the Java code signals absence with `null` and
    misuse with unchecked exceptions; the model returns them as values. */
module Common {

  /** A possibly absent value; `None` stands for Java's `null`. */
  datatype Option<+T> = None | Some(value: T)

  /** The exceptions the modelled classes throw. */
  datatype Error =
    | IllegalArgument       // java.lang.IllegalArgumentException
    | NoSuchElement         // java.util.NoSuchElementException
    | UnsupportedOperation  // java.lang.UnsupportedOperationException
    | IndexOutOfBounds      // java.lang.ArrayIndexOutOfBoundsException

  /** A call that either returns a value or throws. */
  datatype Result<+T> = Success(value: T) | Failure(error: Error)

  /** A `void` call that either returns normally or throws. */
  datatype Outcome = Pass | Fail(error: Error)

  /** No element occurs twice. */
  predicate Unique<T(==)>(s: seq<T>) {
    forall i, j | 0 <= i < j < |s| :: s[i] != s[j]
  }

  lemma UniqueAppend<T>(a: seq<T>, b: seq<T>)
    requires Unique(a) && Unique(b)
    requires forall x | x in b :: x !in a
    ensures Unique(a + b)
  {
    forall i, j | 0 <= i < j < |a + b| ensures (a + b)[i] != (a + b)[j] {
      if j >= |a| && i < |a| {
        assert (a + b)[i] == a[i];
        assert (a + b)[j] == b[j - |a|] && b[j - |a|] in b;
      }
    }
  }
}
