/** The peer data connection as the sender sees it: everything handed to
    `conn.send` lands, in order, at the end of an append-only message log;
    `open` and `bufferedAmount` are the connection's state, which the
    network, not the sender, changes. */
module Channel {
  import opened Protocol

  /** The connection's state at one moment: whether it is open and how
      many bytes are queued but not yet flushed. */
  datatype Observation = Observation(open: bool, bufferedAmount: nat)

  class Connection {
    var log: seq<Message>
    var open: bool
    var bufferedAmount: nat

    constructor (open: bool, bufferedAmount: nat)
      ensures log == [] && this.open == open && this.bufferedAmount == bufferedAmount
    {
      log := [];
      this.open := open;
      this.bufferedAmount := bufferedAmount;
    }

    /** `conn.send(message)`: the message is queued after every earlier one. */
    method Send(m: Message)
      modifies this`log
      ensures log == old(log) + [m]
    {
      log := log + [m];
    }

    /** The network moves on: the connection now has the observed state.
        Nothing that was sent is touched. */
    method Observe(o: Observation)
      modifies this`open, this`bufferedAmount
      ensures open == o.open && bufferedAmount == o.bufferedAmount
    {
      open := o.open;
      bufferedAmount := o.bufferedAmount;
    }
  }
}
