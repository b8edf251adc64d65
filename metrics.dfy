/** The six counters every server carries (`ServerBase`). The source bumps
    them with `Interlocked.Increment` from many handlers; here one connection
    is handled at a time and an increment is a plain assignment. */
module Metrics {

  class ServerBase {
    var AcceptCount: nat
    var ReadCount: nat
    var WriteCount: nat
    var CloseCount: nat
    var CloseByPeerCount: nat
    var CloseByInvalidStream: nat

    /** Every counter starts at zero. */
    constructor ()
      ensures AcceptCount == 0 && ReadCount == 0 && WriteCount == 0
      ensures CloseCount == 0 && CloseByPeerCount == 0 && CloseByInvalidStream == 0
    {
      AcceptCount, ReadCount, WriteCount := 0, 0, 0;
      CloseCount, CloseByPeerCount, CloseByInvalidStream := 0, 0, 0;
    }

    /** Every recorded close has exactly one recorded reason. */
    predicate CloseBalanced()
      reads this
    {
      CloseCount == CloseByPeerCount + CloseByInvalidStream
    }

    /** No counter went down since the old state. */
    twostate predicate Grew()
      reads this
    {
      && old(AcceptCount) <= AcceptCount
      && old(ReadCount) <= ReadCount
      && old(WriteCount) <= WriteCount
      && old(CloseCount) <= CloseCount
      && old(CloseByPeerCount) <= CloseByPeerCount
      && old(CloseByInvalidStream) <= CloseByInvalidStream
    }
  }
}
