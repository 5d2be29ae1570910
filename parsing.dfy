/** Classification of one client line into a command (parse_command). The
    lexers that clean a line, recognise its command word and extract a
    bounded payload are outside this model: their verdicts on the line
    arrive as a `Lexed` value. */
module Parsing {
  import opened BabbleTypes

  /** What the lexers make of one cleaned line: the command kind and
      answer flag (str_to_command), and for each size bound the payload
      extracted with that bound, or None when extraction fails
      (str_to_payload). */
  datatype Lexed = Lexed(kind: CommandKind, answerExpected: bool, payload: nat -> Option<seq<char>>)

  /** How a kind's payload is read: extracted under a size bound, or empty. */
  datatype PayloadRule = Bounded(limit: nat) | NoPayload

  /** The payload rule of each kind; None for the kinds parse_command rejects. */
  function RuleFor(kind: CommandKind, lim: Limits): Option<PayloadRule>
  {
    match kind
    case Login => Some(Bounded(lim.idSize))
    case Publish => Some(Bounded(lim.msgSize))
    case Follow => Some(Bounded(lim.idSize))
    case Timeline => Some(NoPayload)
    case FollowCount => Some(NoPayload)
    case Rdv => Some(NoPayload)
    case Unregister => None
    case Invalid => None
  }

  /** The status code (0 or -1) and the command as parse_command leaves it. */
  datatype Parsed = Parsed(status: int, cmd: Command)

  /** parse_command: records the kind and answer flag, resets the answer to
      "single message, no list", then reads the payload by the kind's rule.
      It fails with -1 for a rejected kind or a failed extraction. */
  function ParseCommand(cmd: Command, line: Lexed, lim: Limits): (r: Parsed)
    ensures r.status == 0 || r.status == -1
    ensures r.cmd.cid == line.kind && r.cmd.answerExpected == line.answerExpected
    ensures r.cmd.answer == Answer(-1, [])
    ensures r.cmd.key == cmd.key && r.cmd.sock == cmd.sock
    ensures r.status != 0 ==> r.cmd.msg == cmd.msg
  {
    var c := cmd.(cid := line.kind, answerExpected := line.answerExpected, answer := Answer(-1, []));
    match RuleFor(line.kind, lim)
    case None => Parsed(-1, c)
    case Some(NoPayload) => Parsed(0, c.(msg := []))
    case Some(Bounded(n)) =>
      match line.payload(n)
      case None => Parsed(-1, c)
      case Some(p) => Parsed(0, c.(msg := p))
  }

  /** The payload extractor never returns more than the bound it is given. */
  ghost predicate RespectsBounds(line: Lexed)
  {
    forall n: nat :: line.payload(n).Some? ==> |line.payload(n).value| <= n
  }

  /** Exactly the six command kinds with a payload rule can parse: LOGIN,
      PUBLISH and FOLLOW when their payload extracts, TIMELINE, FOLLOW_COUNT
      and RDV always; UNREGISTER and unknown kinds never. */
  lemma ParseAcceptsExactly(cmd: Command, line: Lexed, lim: Limits)
    ensures ParseCommand(cmd, line, lim).status == 0 <==>
              || (line.kind in {Login, Follow} && line.payload(lim.idSize).Some?)
              || (line.kind == Publish && line.payload(lim.msgSize).Some?)
              || line.kind in {Timeline, FollowCount, Rdv}
  {
  }

  /** An accepted LOGIN or FOLLOW carries the payload extracted under the
      identifier bound, an accepted PUBLISH the one extracted under the
      message bound, and every other accepted kind an empty payload; so with
      a lexer that honours its bound, the payload never exceeds the bound
      of its kind. */
  lemma ParsedPayloadFits(cmd: Command, line: Lexed, lim: Limits)
    ensures var r := ParseCommand(cmd, line, lim);
            r.status == 0 ==>
              && (line.kind in {Login, Follow} ==> r.cmd.msg == line.payload(lim.idSize).value)
              && (line.kind == Publish ==> r.cmd.msg == line.payload(lim.msgSize).value)
              && (line.kind in {Timeline, FollowCount, Rdv} ==> r.cmd.msg == [])
    ensures var r := ParseCommand(cmd, line, lim);
            r.status == 0 && RespectsBounds(line) ==>
              && (line.kind in {Login, Follow} ==> |r.cmd.msg| <= lim.idSize)
              && (line.kind == Publish ==> |r.cmd.msg| <= lim.msgSize)
  {
  }
}
