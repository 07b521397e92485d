/** Failure-compatible wrappers used by every module of the model. */
module Wrappers {

  datatype Option<+T> = None | Some(value: T)

  /** The exceptions the modelled code raises, by kind. */
  datatype Error =
    | EmptyPartitions        // ValueError('partitions cannot be empty')
    | LengthMismatch         // ValueError('partitions must have the same length')
    | LevelsMismatch         // ValueError('levels/partitions length mismatch ...')
    | TerminalsMismatch      // ValueError('terminal nodes size mismatch ...')
    | NotBuilt               // ValueError('hierarchy not built. Call weave() first')
    | NoRoot                 // IndexError: roots[0] on a graph without nodes
    | NoPath                 // networkx.NetworkXNoPath from shortest_path_length
    | MissingEdge            // ValueError('edge does not exist: ...')
    | BadMode                // ValueError('mode must be either "depth" or "breadth"')
    | MissingNode            // KeyError on a node attribute or a node absent from the graph
    | EmptyReduction         // ValueError: max over a zero-size array
    | NotATerminal           // IndexError: find() of a node that is not a terminal
    | ZeroDivision           // a Jaccard score whose denominator is zero (numpy gives inf or nan)
    | EmptyStack             // ValueError from np.vstack: no rows to stack
    | UnboundTerminals       // UnboundLocalError in the terminals setter (an ndarray value)

  datatype Result<+R> = Ok(value: R) | Err(error: Error) {
    predicate IsFailure() { Err? }
    function PropagateFailure<U>(): Result<U>
      requires Err?
    {
      Err(error)
    }
    function Extract(): R
      requires Ok?
    {
      value
    }
  }
}
