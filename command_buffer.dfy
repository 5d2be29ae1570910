/** The bounded command buffer between connection threads and executor
    threads (syncBuffer). Its semaphores are not modelled: what they
    guarantee becomes the precondition of each operation, a free slot for a
    put and a resident command for a get. As written, put and get both work
    at the top index `count`, so the buffer is a stack. */
module CommandBuffer {
  import opened BabbleTypes

  /** MAX_NB_CMD: the number of slots. */
  const MaxNbCmd: nat := 10

  /** The slots hold command values where the C buffer holds `command_t`
      pointers; since the buffer never changes a command it holds, a get
      returns the same command either way. */
  class SyncBuffer {
    const buf: array<Command>
    var count: int

    /** The buffer invariant: MAX_NB_CMD slots, of which the first `count`
        are resident. */
    ghost predicate Valid()
      reads this
    {
      buf.Length == MaxNbCmd && 0 <= count <= MaxNbCmd
    }

    /** The resident commands, bottom of the stack first. */
    ghost function Contents(): seq<Command>
      reads this, buf
      requires Valid()
    {
      buf[..count]
    }

    /** syncBuffer_init: an empty buffer. */
    constructor Init()
      ensures Valid() && fresh(buf)
      ensures count == 0 && Contents() == []
    {
      buf := new Command[MaxNbCmd];
      count := 0;
    }

    /** syncBuffer_put: increments the count and stores `cmd` in the slot
        just claimed; no other slot changes. */
    method Put(cmd: Command)
      requires Valid() && count < MaxNbCmd
      modifies this, buf
      ensures Valid()
      ensures count == old(count) + 1
      ensures buf[..] == old(buf[..])[old(count) := cmd]
      ensures Contents() == old(Contents()) + [cmd]
    {
      count := count + 1;
      buf[count - 1] := cmd;
    }

    /** syncBuffer_get: takes the command in the top resident slot and
        decrements the count; the slots themselves are untouched. */
    method Get() returns (cmd: Command)
      requires Valid() && count > 0
      modifies this
      ensures Valid()
      ensures count == old(count) - 1
      ensures buf[..] == old(buf[..])
      ensures cmd == old(buf[count - 1])
      ensures old(Contents()) == Contents() + [cmd]
    {
      cmd := buf[count - 1];
      count := count - 1;
    }
  }

  /** A get right after a put returns the command just put and restores
      the buffer to what it held before. */
  method PutThenGet(b: SyncBuffer, cmd: Command) returns (got: Command)
    requires b.Valid() && b.count < MaxNbCmd
    modifies b, b.buf
    ensures b.Valid()
    ensures got == cmd
    ensures b.count == old(b.count) && b.Contents() == old(b.Contents())
  {
    b.Put(cmd);
    got := b.Get();
  }

  /** The buffer is last-in-first-out: after putting `first` and then
      `second`, the next two gets return `second` and then `first`. */
  method LastInFirstOut(b: SyncBuffer, first: Command, second: Command) returns (got1: Command, got2: Command)
    requires b.Valid() && b.count + 2 <= MaxNbCmd
    modifies b, b.buf
    ensures b.Valid()
    ensures got1 == second && got2 == first
    ensures b.Contents() == old(b.Contents())
  {
    b.Put(first);
    b.Put(second);
    got1 := b.Get();
    got2 := b.Get();
  }
}
