/** Small shared definitions: the optional-value wrapper, node identifiers and |x| on reals. */
module Common {

  /** A JavaScript value that may be `null`. */
  datatype Option<+T> = None | Some(value: T)

  /** Node ids are JavaScript strings (map keys of `Graph3D.nodes`). */
  type NodeId = string

  function Abs(x: real): (r: real)
    ensures r >= 0.0 && (r == x || r == -x)
  {
    if x < 0.0 then -x else x
  }
}
