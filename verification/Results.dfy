/** Failure-aware results and sequences, shared by every module of the project. */
module Results {

  datatype Option<+T> = None | Some(value: T)

  datatype Result<+T, +E> = Ok(value: T) | Err(error: E) {
    predicate IsFailure() {
      Err?
    }

    function PropagateFailure<U>(): Result<U, E>
      requires Err?
    {
      Err(error)
    }

    function Extract(): T
      requires Ok?
    {
      value
    }
  }

  /** So many copies of a value. */
  function Filled<T>(x: T, n: nat): seq<T> {
    seq(n, _ => x)
  }

  // Concatenation, bracketed differently

  lemma FourParts<T>(a: seq<T>, b: seq<T>, c: seq<T>, d: seq<T>)
    ensures a + (b + c) + d == (a + b) + (c + d)
    ensures a + b + c + d == a + (b + (c + d))
  {
  }

  lemma FiveParts<T>(a: seq<T>, b: seq<T>, c: seq<T>, d: seq<T>, e: seq<T>)
    ensures a + (b + c) + d + e == a + (b + (c + (d + e)))
    ensures a + b + c + d + e == a + ((b + c) + (d + e))
    ensures a + b + (c + d) + e == a + (b + c + (d + e))
  {
  }

  lemma Associate<T>(a: seq<T>, b: seq<T>, c: seq<T>)
    ensures (a + b) + c == a + (b + c)
  {
  }

  /**
   Always true, so it leaves the meaning of a definition `forall i :: Asked(i) ==> P` at `P`. It only
   controls when the verifier looks at `P`: in proofs that mention `Asked`, and not in the many that
   just carry such a fact along.
   */
  ghost predicate Asked(i: nat) {
    true
  }
}
