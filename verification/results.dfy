/** Failure-carrying values: the model's stand-in for C# exceptions and null. */
module Results {

  /** The exceptions the game core can throw, one constructor per cause. */
  datatype Fault =
    | UndefinedOpponent    // Opponent of PlayerId.None
    | IndexOutOfRange      // a Position whose Index falls outside the 9 cells
    | GameIsOver           // PlaceChess after the game has a result
    | AlreadyPlaced        // PlaceChess on an occupied cell
    | EmptyHistory         // RetractChess with no moves played
    | ArgumentOutOfRange   // indexing an empty candidate list

  /** Either a value or the fault that the C# code would throw instead; a
      fault propagates through `:-` as the exception propagates in C#. */
  datatype Result<+T> = Ok(value: T) | Err(error: Fault) {
    predicate IsFailure() {
      Err?
    }

    function PropagateFailure<U>(): Result<U>
      requires Err?
    {
      Err(error)
    }

    function Extract(): T
      requires Ok?
    {
      value
    }
  }

  /** A C# reference that may be null. */
  datatype Option<+T> = Null | Some(value: T)
}
