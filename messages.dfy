/** Coherence messages and the small value types shared by every component. */
module Messages {

  datatype Option<T> = None | Some(value: T)

  /** Message kinds, numbered as on the wire. A COMPLETE travelling node to
      directory commits a pending write; travelling directory to node it
      grants the line the node is awaiting. */
  const Invalidate := 0
  const Complete := 1
  const Fetch := 2

  /** The payload a node and the directory put in a COMPLETE message. */
  const WriteData := 123

  /** A message is created on send; afterwards only `handled` changes, and
      only from false to true, when the directory has serviced it. */
  class Message {
    const kind: int
    const data: int
    var handled: bool

    constructor (kind: int, data: int)
      ensures this.kind == kind && this.data == data && !handled
    {
      this.kind := kind;
      this.data := data;
      handled := false;
    }
  }

  /** `n` copies of `x`: what a recipient listed `n` times receives. */
  function Repeat<T>(x: T, n: nat): (r: seq<T>)
    ensures |r| == n
    ensures forall i :: 0 <= i < n ==> r[i] == x
  {
    if n == 0 then [] else Repeat(x, n - 1) + [x]
  }
}
