/** Answer transmission (answer_command): which frames a processed command
    sends back to its client. The transport is a log of frames; a write
    fails once the connection has taken as many frames as it accepts, and a
    failed write appends nothing. */
module Answering {
  import opened BabbleTypes
  import Parsing

  /** One write to a client: the set size as a fixed-width integer, or the
      bytes of a NUL-terminated string. */
  datatype Frame = CountFrame(to: Key, n: int) | TextFrame(to: Key, bytes: seq<char>)

  /** How answer_command ends: 0 returned, -1 returned after a failed write,
      the process aborted by the closing assertion on the set count, or the
      process crashed on a NULL list node (a single answer without a node, or
      a skip loop that runs past the end of the list). */
  datatype AnswerStatus = Answered | SendFailed | AssertionFailed | NullDereference

  /** The bytes of `w` before its first NUL: what strlen measures, and what a
      reader of a NUL-terminated frame recovers. */
  function Unframe(w: seq<char>): (m: seq<char>)
    ensures '\0' !in m
    ensures |m| <= |w| && m == w[..|m|]
    ensures |m| < |w| ==> w[|m|] == '\0'
  {
    if w == [] || w[0] == '\0' then []
    else [w[0]] + Unframe(w[1..])
  }

  /** The strlen(m)+1 bytes written for the C string held in `m`: its
      characters up to the first NUL, then the terminating NUL. */
  function Wire(m: seq<char>): seq<char>
  {
    Unframe(m) + ['\0']
  }

  /** A string without an embedded NUL is its own strlen prefix. */
  lemma {:induction false} UnframeNulFree(m: seq<char>)
    requires '\0' !in m
    ensures Unframe(m) == m
  {
    if m != [] {
      UnframeNulFree(m[1..]);
    }
  }

  /** Reading a NUL-terminated NUL-free string stops at its terminator. */
  lemma {:induction false} UnframeTerminated(c: seq<char>)
    requires '\0' !in c
    ensures Unframe(c + ['\0']) == c
  {
    if c != [] {
      assert (c + ['\0'])[1..] == c[1..] + ['\0'];
      UnframeTerminated(c[1..]);
    }
  }

  /** A frame carries its C string whole: it is strlen+1 bytes, ends with
      NUL, and reading it back yields the string up to its first NUL, which
      is the whole string when it has no embedded NUL. */
  lemma UnframeWire(m: seq<char>)
    ensures |Wire(m)| == |Unframe(m)| + 1 && Wire(m)[|Wire(m)| - 1] == '\0'
    ensures Unframe(Wire(m)) == Unframe(m)
    ensures '\0' !in m ==> |Wire(m)| == |m| + 1 && Unframe(Wire(m)) == m
  {
    UnframeTerminated(Unframe(m));
    if '\0' !in m {
      UnframeNulFree(m);
    }
  }

  /** The number of list elements skipped before sending: those beyond the
      last `max`, counted against the declared size. */
  function ToSkip(size: int, max: nat): nat
  {
    if size > max then size - max else 0
  }

  /** The answer is sent as a set: a count frame followed by list elements. */
  predicate IsSetAnswer(cmd: Command)
  {
    cmd.answerExpected && cmd.answer.size != -1 && cmd.answer.size != -2
  }

  /** What answer_command dereferences exists: the first node of a single
      answer, and every node the skip loop steps over in a set answer. */
  predicate Dereferenceable(cmd: Command, max: nat)
  {
    && (cmd.answerExpected && cmd.answer.size == -1 ==> |cmd.answer.aset| >= 1)
    && (IsSetAnswer(cmd) ==> ToSkip(cmd.answer.size, max) <= |cmd.answer.aset|)
  }

  /** One text frame per message, in order. */
  function TextFrames(to: Key, msgs: seq<seq<char>>): seq<Frame>
  {
    seq(|msgs|, i requires 0 <= i < |msgs| => TextFrame(to, Wire(msgs[i])))
  }

  /** Sending one more message extends the text frames by its frame. */
  lemma TextFramesSnoc(to: Key, msgs: seq<seq<char>>, lo: nat, hi: nat)
    requires lo <= hi < |msgs|
    ensures TextFrames(to, msgs[lo..hi + 1]) == TextFrames(to, msgs[lo..hi]) + [TextFrame(to, Wire(msgs[hi]))]
  {
    assert msgs[lo..hi + 1] == msgs[lo..hi] + [msgs[hi]];
  }

  /** The frames answer_command writes when every write succeeds: all of
      them, or those written before it dereferences a NULL node (none for a
      single answer, the count frame for a set answer). */
  function Planned(cmd: Command, max: nat): seq<Frame>
  {
    var a := cmd.answer;
    if !cmd.answerExpected || a.size == -2 then []
    else if a.size == -1 then
      if |a.aset| == 0 then [] else [TextFrame(cmd.key, Wire(a.aset[0]))]
    else if ToSkip(a.size, max) > |a.aset| then [CountFrame(cmd.key, a.size)]
    else [CountFrame(cmd.key, a.size)] + TextFrames(cmd.key, a.aset[ToSkip(a.size, max)..])
  }

  /** The plan of a set answer: the count frame, then either nothing (the
      skip loop runs off the list) or the text frames of the kept elements. */
  lemma PlannedSet(cmd: Command, max: nat)
    requires IsSetAnswer(cmd)
    ensures var k := ToSkip(cmd.answer.size, max);
            && (k > |cmd.answer.aset| ==>
                  !Dereferenceable(cmd, max) && Planned(cmd, max) == [CountFrame(cmd.key, cmd.answer.size)])
            && (k <= |cmd.answer.aset| ==>
                  (Dereferenceable(cmd, max) &&
                   Planned(cmd, max) == [CountFrame(cmd.key, cmd.answer.size)] + TextFrames(cmd.key, cmd.answer.aset[k..])))
  {
  }

  /** How a run of answer_command ends, given how many writes the connection
      accepts: the frames sent are the planned ones up to the first failed
      write, which returns -1; when all writes succeed the run crashes
      exactly when a node it dereferences is missing, aborts on the closing
      assertion exactly when a set answer's list length differs from its
      declared size, and returns 0 otherwise. */
  predicate SentAsPlanned(cmd: Command, max: nat, accepted: nat, status: AnswerStatus, sent: seq<Frame>)
  {
    var p := Planned(cmd, max);
    && (accepted < |p| ==> status == SendFailed && sent == p[..accepted])
    && (accepted >= |p| ==>
          && sent == p
          && (status == NullDereference <==> !Dereferenceable(cmd, max))
          && (status == AssertionFailed <==>
                Dereferenceable(cmd, max) && IsSetAnswer(cmd) && |cmd.answer.aset| != cmd.answer.size)
          && status != SendFailed)
  }

  /** answer_command, with `accepted` the number of writes the connection
      takes before a write fails. */
  method AnswerCommand(cmd: Command, max: nat, accepted: nat) returns (status: AnswerStatus, sent: seq<Frame>)
    ensures SentAsPlanned(cmd, max, accepted, status, sent)
  {
    if !cmd.answerExpected {
      return Answered, [];
    }
    if cmd.answer.size == -2 {
      return Answered, [];
    }
    if cmd.answer.size == -1 {
      status, sent := AnswerSingle(cmd, max, accepted);
      return;
    }
    status, sent := AnswerSet(cmd, max, accepted);
  }

  /** The single-message branch of answer_command: the first node's string
      with its NUL. */
  method AnswerSingle(cmd: Command, max: nat, accepted: nat) returns (status: AnswerStatus, sent: seq<Frame>)
    requires cmd.answerExpected && cmd.answer.size == -1
    ensures SentAsPlanned(cmd, max, accepted, status, sent)
  {
    if |cmd.answer.aset| == 0 {
      return NullDereference, [];
    }
    if accepted == 0 {
      return SendFailed, [];
    }
    return Answered, [TextFrame(cmd.key, Wire(cmd.answer.aset[0]))];
  }

  /** The set branch of answer_command: the count frame, the skip loop over
      the elements beyond the last `max`, the send loop, and the closing
      assertion on the count. */
  method AnswerSet(cmd: Command, max: nat, accepted: nat) returns (status: AnswerStatus, sent: seq<Frame>)
    requires IsSetAnswer(cmd)
    ensures SentAsPlanned(cmd, max, accepted, status, sent)
  {
    PlannedSet(cmd, max);
    ghost var plan := Planned(cmd, max);
    var aset := cmd.answer.aset;
    sent := [];
    if |sent| == accepted {
      return SendFailed, sent;
    }
    sent := sent + [CountFrame(cmd.key, cmd.answer.size)];

    var toSkip := if cmd.answer.size > max then cmd.answer.size - max else 0;
    var item := 0;
    var count := 0;
    while count < toSkip
      invariant 0 <= count <= toSkip
      invariant item == count && item <= |aset|
    {
      if item == |aset| {
        return NullDereference, sent;
      }
      item := item + 1;
      count := count + 1;
    }

    while item < |aset|
      invariant toSkip <= item <= |aset|
      invariant count == item
      invariant sent == [CountFrame(cmd.key, cmd.answer.size)] + TextFrames(cmd.key, aset[toSkip..item])
      invariant |sent| <= accepted
    {
      if |sent| == accepted {
        assert plan[..accepted] == sent;
        return SendFailed, sent;
      }
      TextFramesSnoc(cmd.key, aset, toSkip, item);
      sent := sent + [TextFrame(cmd.key, Wire(aset[item]))];
      item := item + 1;
      count := count + 1;
    }
    assert aset[toSkip..item] == aset[toSkip..];

    if count != cmd.answer.size {
      return AssertionFailed, sent;
    }
    return Answered, sent;
  }

  /** No frame at all when the client expects no answer or the answer is
      explicitly empty. */
  lemma NothingSent(cmd: Command, max: nat)
    requires !cmd.answerExpected || cmd.answer.size == -2
    ensures Planned(cmd, max) == []
  {
  }

  /** A single answer is one frame: the first node's message with its NUL,
      strlen+1 bytes long, from which the client reads the message back. */
  lemma SingleFrame(cmd: Command, max: nat)
    requires Dereferenceable(cmd, max)
    requires cmd.answerExpected && cmd.answer.size == -1
    requires '\0' !in cmd.answer.aset[0]
    ensures |Planned(cmd, max)| == 1
    ensures Planned(cmd, max)[0].TextFrame? && Planned(cmd, max)[0].to == cmd.key
    ensures |Planned(cmd, max)[0].bytes| == |cmd.answer.aset[0]| + 1
    ensures Unframe(Planned(cmd, max)[0].bytes) == cmd.answer.aset[0]
  {
    UnframeWire(cmd.answer.aset[0]);
  }

  /** A set answer starts with the declared size, skips the first
      max(0, size - max) list elements and sends the rest in list order. */
  lemma SetFrames(cmd: Command, max: nat)
    requires Dereferenceable(cmd, max) && IsSetAnswer(cmd)
    ensures var p := Planned(cmd, max);
            var k := ToSkip(cmd.answer.size, max);
            && |p| == 1 + |cmd.answer.aset| - k
            && p[0] == CountFrame(cmd.key, cmd.answer.size)
            && (cmd.answer.size > max ==> k == cmd.answer.size - max)
            && (cmd.answer.size <= max ==> k == 0)
            && forall j | 1 <= j < |p| :: p[j] == TextFrame(cmd.key, Wire(cmd.answer.aset[k + j - 1]))
  {
  }

  /** When the list holds exactly the declared number of elements, the
      count frame carries that untruncated number, exactly min(size, max)
      message frames follow, they are the LAST min(size, max) elements in
      order, and the closing assertion holds. */
  lemma TruncatedToDisplayMax(cmd: Command, max: nat)
    requires IsSetAnswer(cmd) && |cmd.answer.aset| == cmd.answer.size
    ensures Dereferenceable(cmd, max)
    ensures var p := Planned(cmd, max);
            var shown := if cmd.answer.size < max then cmd.answer.size else max;
            var aset := cmd.answer.aset;
            && p[0] == CountFrame(cmd.key, |aset|)
            && |p| == 1 + shown
            && p[1..] == TextFrames(cmd.key, aset[|aset| - shown..])
  {
  }

  /** parse_command leaves the answer as a single message with no list, so a
      command whose client expects an answer and that reaches answer_command
      with its answer as parsed dereferences a NULL node before writing
      anything. An unrecognised kind fails to parse; process_command then
      rejects it without touching the answer, so unless notify_parse_error
      fills the answer, this is how such a command reaches answer_command. */
  lemma UnfilledAnswerCrashes(cmd: Command, line: Parsing.Lexed, lim: Limits, max: nat)
    requires line.answerExpected
    ensures line.kind == Invalid ==> Parsing.ParseCommand(cmd, line, lim).status == -1
    ensures var c := Parsing.ParseCommand(cmd, line, lim).cmd;
            !Dereferenceable(c, max) && Planned(c, max) == []
  {
  }
}
