/** The messages the harness routes, and the outcome of a harness call. */
module Messages {
  import opened Uris

  type Byte = b: int | 0 <= b < 256

  /** Cluster states (pilosa's ClusterState constants). */
  const STARTING: string := "STARTING"
  const NORMAL: string := "NORMAL"
  const RESIZING: string := "RESIZING"

  /** Identifies one fragment of a holder: index, frame, view and slice. */
  datatype FragKey = FragKey(index: string, frame: string, view: string, slice: nat)

  /** One entry of a resize instruction: the node to copy from and the fragment. */
  datatype ResizeSource = ResizeSource(uri: URI, index: string, frame: string, view: string, slice: nat)
  {
    function Key(): FragKey
    {
      FragKey(index, frame, view, slice)
    }
  }

  /**
   * Work for one destination node: the job, the destination, the
   * coordinator, the encoded schema to apply first, and the sources in order.
   */
  datatype ResizeInstruction = ResizeInstruction(
    jobID: int, uri: URI, coordinator: URI, schema: seq<Byte>, sources: seq<ResizeSource>)

  /** Destination-to-coordinator acknowledgement; error "" means success. */
  datatype ResizeInstructionComplete = ResizeInstructionComplete(jobID: int, uri: URI, error: string)

  /** Coordinator-to-all broadcast: the new state and the node list. */
  datatype ClusterStatus = ClusterStatus(state: string, nodes: seq<URI>)

  /** The event AddNode hands to the coordinator. */
  datatype NodeEvent = NodeJoin(uri: URI)

  /** The message kinds the broadcaster distinguishes; Other is every other kind. */
  datatype Message =
    | StatusMessage(status: ClusterStatus)
    | InstructionMessage(instruction: ResizeInstruction)
    | CompleteMessage(complete: ResizeInstructionComplete)
    | Other

  /** A message handed to a node: the recipient's address and the payload. */
  datatype Delivery<M> = Delivery(to: URI, payload: M)

  /**
   * How a harness call ends: a nil error, a returned error, or a Go run-time
   * panic (nil dereference, closing a closed channel).
   */
  datatype Outcome = Ok | Err(message: string) | Panic(reason: string)
}
