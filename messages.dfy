/**
 * DiffMessage, the unit of output, and the channel the engine sends it on.
 */
module Messages {

  /** The three classifications a difference record carries ("only-in-first", "type", "size"). */
  datatype DiffKind = OnlyInFirst | TypeDiff | SizeDiff

  /**
   * What went wrong in an error record: a stat, a URL join or a listing failed,
   * or a URL compared as an object turned out not to be a regular file.
   */
  datatype Cause = StatFailed | JoinFailed | ListFailed | NotAnObject(url: string)

  /**
   * A record is either a classification of two URLs or an error traced with
   * the URLs it was reported for (the Go struct never sets both).
   */
  datatype DiffMessage =
    | Difference(firstURL: string, secondURL: string, diff: DiffKind)
    | Failure(cause: Cause, trace: seq<string>)

  /**
   * The result channel: what has been sent so far, and whether it has been
   * closed. Sending on or closing a closed channel panics in Go, so both
   * require an open channel.
   */
  class Channel {
    var sent: seq<DiffMessage>
    var closed: bool

    constructor ()
      ensures sent == [] && !closed
    {
      sent := [];
      closed := false;
    }

    method Send(m: DiffMessage)
      requires !closed
      modifies this
      ensures sent == old(sent) + [m] && !closed
    {
      sent := sent + [m];
    }

    method Close()
      requires !closed
      modifies this
      ensures sent == old(sent) && closed
    {
      closed := true;
    }
  }
}
