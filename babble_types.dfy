/** Shared data model of the babble server: client keys, command kinds,
    commands and the answers attached to them once processed. */
module BabbleTypes {

  /** A client key (an unsigned long in the server). */
  type Key = nat

  datatype Option<T> = None | Some(value: T)

  /** The command identifiers; `Invalid` stands for every identifier the
      lexer produces for a line it does not recognise. */
  datatype CommandKind = Login | Publish | Follow | Timeline | FollowCount | Rdv | Unregister | Invalid

  /** The answer of a processed command. `size` encodes its form:
      -2 means "nothing to send", -1 means "the single message in the first
      node of `aset`", and any other value is the declared element count of
      the message list `aset` (the linked list of answer nodes, in order). */
  datatype Answer = Answer(size: int, aset: seq<seq<char>>)

  /** One client request. `msg` is the payload string, without its
      terminating NUL. */
  datatype Command = Command(
    cid: CommandKind,
    sock: int,
    key: Key,
    msg: seq<char>,
    answer: Answer,
    answerExpected: bool)

  /** The compile-time bounds the server is built with: the payload sizes of
      identifiers (BABBLE_ID_SIZE) and of published messages (BABBLE_SIZE),
      and the display maximum of a timeline (BABBLE_TIMELINE_MAX). */
  datatype Limits = Limits(idSize: nat, msgSize: nat, timelineMax: nat)
}
