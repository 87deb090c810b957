/**
 * The mailbox between the editor and the worker: BasicCommunication keeps a
 * FIFO list of command messages; writers append at the back, the worker takes
 * from the front. Locking and waiting are not modelled: a read that would time
 * out is a read from an empty list.
 */
module Communication {
  import opened Wrappers
  import opened Resolver

  datatype CommandMessageType = Terminate | Update

  /** A command; the schedule is empty for TERMINATE and for an UPDATE sent while disabled. */
  datatype CommandMessage = CommandMessage(kind: CommandMessageType, schedule: ScheduleList)

  class BasicCommunication {
    var commands: seq<CommandMessage>

    constructor ()
      ensures commands == []
    {
      commands := [];
    }

    /** readCommandTimeout: the oldest command, or None when none is queued (the wait timed out). */
    method ReadCommandTimeout(timeout: int) returns (r: Option<CommandMessage>)
      modifies this
      ensures old(commands) == [] ==> r == None && commands == []
      ensures old(commands) != [] ==> r == Some(old(commands)[0]) && commands == old(commands)[1..]
    {
      if commands == [] {
        return None;
      }
      var cmd := commands[0];
      commands := commands[1..];
      r := Some(cmd);
    }

    /** readCommand: the oldest command; the program blocks until there is one. */
    method ReadCommand() returns (msg: CommandMessage)
      requires commands != []
      modifies this
      ensures msg == old(commands)[0] && commands == old(commands)[1..]
    {
      msg := commands[0];
      commands := commands[1..];
    }

    /** writeCommand: append at the back. */
    method WriteCommand(msg: CommandMessage)
      modifies this
      ensures commands == old(commands) + [msg]
    {
      commands := commands + [msg];
    }
  }

  /** Commands come out in the order they were written. */
  method FifoOrder(a: CommandMessage, b: CommandMessage) returns (first: Option<CommandMessage>, second: Option<CommandMessage>, third: Option<CommandMessage>)
    ensures first == Some(a) && second == Some(b) && third == None
  {
    var communication := new BasicCommunication();
    communication.WriteCommand(a);
    communication.WriteCommand(b);
    first := communication.ReadCommandTimeout(Day);
    second := communication.ReadCommandTimeout(Day);
    third := communication.ReadCommandTimeout(Day);
  }
}
