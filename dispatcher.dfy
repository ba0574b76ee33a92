/**
 * `EventHandler::onUpdateNewMessage` (base.php lines 149-265), which
 * `onUpdateEditMessage` and `onUpdateNewChannelMessage` (lines 141-148) call
 * unchanged. One update is classified on its own and yields the ordered list
 * of effects the handler performs: the audit log line, the edits of the
 * triggering message, the administrative log lines and the lifecycle calls.
 */
module Dispatcher {
  import opened PhpRuntime
  import opened Formatters

  /** The `to_id` of a message: where it was sent, handed back unchanged to `editMessage`. */
  datatype PeerRef = PeerUser(userId: int) | PeerChat(chatId: int) | PeerChannel(channelId: int)

  /** The entries of `$update['message']` the handler reads; None stands for a missing or null entry. */
  datatype Message = Message(
    kind: string,            // ['_'], the constructor name such as "message" or "messageEmpty"
    text: Option<string>,    // ['message']
    id: Option<int>,         // ['id']
    fromId: Option<int>,     // ['from_id']
    replyToId: Option<int>,  // ['reply_to_msg_id']
    toId: Option<PeerRef>)   // ['to_id']

  /** The three subscribed updates; all three reach the same handler. */
  datatype UpdateKind = NewMessage | EditedMessage | NewChannelMessage

  datatype Update = Update(kind: UpdateKind, message: Message)

  /** What handling one update does, in order. */
  datatype Effect =
    | AuditLog(update: Update)  // `logger(toJSON($update), Logger::ERROR)`
    | Log(text: string)         // `logger($text)`
    | EditMessage(peer: Option<PeerRef>, id: int, text: string, html: bool)
    | Restart                   // `$this->restart()`
    | Logout                    // `$this->logout()`
    | Stop                      // `$this->stop()`

  /** The administrative commands, `robot <keyword>`. */
  datatype Command =
    | HelpCommand
    | StatusCommand
    | UptimeCommand
    | MemoryCommand
    | RestartCommand
    | LogoutCommand
    | StopCommand

  function Keyword(c: Command): string {
    match c
    case HelpCommand => "help"
    case StatusCommand => "status"
    case UptimeCommand => "uptime"
    case MemoryCommand => "memory"
    case RestartCommand => "restart"
    case LogoutCommand => "logout"
    case StopCommand => "stop"
  }

  /** The `switch($param)`: exact, case-sensitive comparison with the seven keywords. */
  function ParseCommand(param: string): Option<Command> {
    if param == "help" then Some(HelpCommand)
    else if param == "status" then Some(StatusCommand)
    else if param == "uptime" then Some(UptimeCommand)
    else if param == "memory" then Some(MemoryCommand)
    else if param == "restart" then Some(RestartCommand)
    else if param == "logout" then Some(LogoutCommand)
    else if param == "stop" then Some(StopCommand)
    else None
  }

  /** A keyword is recognised exactly when it is the keyword of a command, and then as that command. */
  lemma ParseCommandIsInverse(param: string, c: Command)
    ensures ParseCommand(param) == Some(c) <==> param == Keyword(c)
  {
  }

  // ---------------------------------------------------------------------------
  // Texts
  // ---------------------------------------------------------------------------

  /** The text the `stop` command writes and the handler later recognises as its cue to stop. */
  const Sentinel := "Robot is stopping ..."

  const HelpText :=
    "<b>Robot Instructions:</b><br>" +
    "<br>" +
    ">> <b>robot help</b><br>" +
    "   To print the robot commands' help.<br>" +
    ">> <b>robot status</b><br>" +
    "   To query the status of the robot.<br>" +
    ">> <b>robot uptime</b><br>" +
    "   To query the robot's uptime.<br>" +
    ">> <b>robot memory</b><br>" +
    "   To query the robot's memory usage.<br>" +
    ">> <b>robot restart</b><br>" +
    "   To restart the robot.<br>" +
    ">> <b>robot stop</b><br>" +
    "   To stop the script.<br>" +
    ">> <b>robot logout</b><br>" +
    "   To terminate the robot's session.<br>"

  const StatusText := "The robot is online!"
  const RestartText := "Restarting the robot ..."
  const RestartNotice := "The robot re-started by the owner."
  const LogoutText := "The robot is logging out. ..."
  const LogoutNotice := "the robot is logged out by the owner."

  /**
   * The body of one `case` of the command switch, for the message `id` in
   * `peer`. `logout` has no `break`, so it goes on into the `stop` case.
   */
  function CommandEffects(c: Command, peer: Option<PeerRef>, id: int, age: int, memUsage: nat): seq<Effect>
    decreases c.LogoutCommand?
  {
    match c
    case HelpCommand => [EditMessage(peer, id, HelpText, true)]
    case StatusCommand => [EditMessage(peer, id, StatusText, false)]
    case UptimeCommand => [EditMessage(peer, id, UptimeReply(age), false)]
    case MemoryCommand => [EditMessage(peer, id, MemoryReply(memUsage), false)]
    case RestartCommand => [EditMessage(peer, id, RestartText, false), Log(RestartNotice), Restart]
    case LogoutCommand =>
      [EditMessage(peer, id, LogoutText, false), Log(LogoutNotice), Logout]
      + CommandEffects(StopCommand, peer, id, age, memUsage)
    case StopCommand => [EditMessage(peer, id, Sentinel, false)]
  }

  // ---------------------------------------------------------------------------
  // The handler
  // ---------------------------------------------------------------------------

  /** `strlen($msg) >= 6 && substr($msg, 0, 6) === 'robot '`. */
  predicate HasCommandPrefix(msg: string) {
    |msg| >= 6 && msg[..6] == "robot "
  }

  /**
   * `onUpdateNewMessage($update)` for the robot `robotID` (None until
   * `onStart` has run), started at `startTime`, handling the update at time
   * `now` with `memUsage` bytes in use. The ids are compared with `===`, so
   * before `onStart` no message is from or to the robot.
   */
  function OnUpdateNewMessage(robotID: Option<int>, startTime: int, now: int, memUsage: nat, update: Update): seq<Effect> {
    var m := update.message;
    if m.kind == "messageEmpty" then []
    else
      var msgOrig := m.text;
      var msg := if Truthy(msgOrig) then Some(Lower(msgOrig.value)) else None;
      var messageId := m.id.GetOr(0);
      var fromId := m.fromId.GetOr(0);
      var replyToId := m.replyToId.GetOr(0);
      var byRobot := Some(fromId) == robotID && Truthy(msg);
      var toRobot := Some(replyToId) == robotID && Truthy(msg);
      (if byRobot || toRobot then [AuditLog(update)] else [])
      + (if byRobot && HasCommandPrefix(msg.value) then
           match ParseCommand(Trim(msg.value[5..]))
           case Some(c) => CommandEffects(c, m.toId, messageId, now - startTime, memUsage)
           case None => []
         else [])
      + (if byRobot && msgOrig == Some(Sentinel) then [Stop] else [])
  }

  // ---------------------------------------------------------------------------
  // The classification, stated on the raw message
  // ---------------------------------------------------------------------------

  /** Sent by the robot itself with a truthy text (not null, "" or "0"). */
  predicate ByRobot(robotID: Option<int>, m: Message) {
    m.kind != "messageEmpty" && Some(m.fromId.GetOr(0)) == robotID && Truthy(m.text)
  }

  /**
   * A message whose `reply_to_msg_id` equals the robot's id, with a truthy
   * text. The code compares a message id with a user id; it does not look at
   * who wrote the message replied to.
   */
  predicate ToRobot(robotID: Option<int>, m: Message) {
    m.kind != "messageEmpty" && Some(m.replyToId.GetOr(0)) == robotID && Truthy(m.text)
  }

  /** The command a message carries: from the robot, lower-cased text starting "robot ", and a known keyword after it. */
  function RecognisedCommand(robotID: Option<int>, m: Message): Option<Command> {
    if ByRobot(robotID, m) && HasCommandPrefix(Lower(m.text.value))
    then ParseCommand(Trim(Lower(m.text.value)[5..]))
    else None
  }

  /** The robot's own message reading exactly the stop sentinel, in its original case. */
  predicate IsStopCue(robotID: Option<int>, m: Message) {
    m.kind != "messageEmpty" && Some(m.fromId.GetOr(0)) == robotID && m.text == Some(Sentinel)
  }

  /** The audit line, for a message from the robot or whose reply-to message id equals the robot's id. */
  function AuditEffects(robotID: Option<int>, update: Update): seq<Effect> {
    if ByRobot(robotID, update.message) || ToRobot(robotID, update.message) then [AuditLog(update)] else []
  }

  /** What a recognised command, if any, does to the message `m`. */
  function EffectsOf(command: Option<Command>, m: Message, age: int, memUsage: nat): seq<Effect> {
    match command
    case Some(c) => CommandEffects(c, m.toId, m.id.GetOr(0), age, memUsage)
    case None => []
  }

  /** The effects of the command the update carries, if any. */
  function RecognisedEffects(robotID: Option<int>, startTime: int, now: int, memUsage: nat, update: Update): seq<Effect> {
    EffectsOf(RecognisedCommand(robotID, update.message), update.message, now - startTime, memUsage)
  }

  /** The stop on the sentinel. */
  function CueEffects(robotID: Option<int>, update: Update): seq<Effect> {
    if IsStopCue(robotID, update.message) then [Stop] else []
  }

  /**
   * The handler in three independent parts, in this order: an audit line for
   * a message from the robot or whose reply-to message id equals the robot's
   * id, the effects of the recognised command, and a stop on the sentinel.
   */
  lemma HandlerDecomposes(robotID: Option<int>, startTime: int, now: int, memUsage: nat, update: Update)
    ensures OnUpdateNewMessage(robotID, startTime, now, memUsage, update)
         == AuditEffects(robotID, update) + RecognisedEffects(robotID, startTime, now, memUsage, update)
            + CueEffects(robotID, update)
  {
    var m := update.message;
    if m.text.Some? {
      LowerKeepsTruthy(m.text.value);
    }
  }

  /**
   * `onUpdateEditMessage` and `onUpdateNewChannelMessage` hand their update
   * to `onUpdateNewMessage`: whatever the kind of update, the same message
   * gives the same effects, except that the audit line records the update
   * as it came.
   */
  lemma EveryKindHandledAlike(robotID: Option<int>, startTime: int, now: int, memUsage: nat, m: Message, kind: UpdateKind)
    ensures var a := OnUpdateNewMessage(robotID, startTime, now, memUsage, Update(kind, m));
      var b := OnUpdateNewMessage(robotID, startTime, now, memUsage, Update(NewMessage, m));
      && |a| == |b|
      && forall i :: 0 <= i < |a| ==>
           a[i] == b[i] || (a[i] == AuditLog(Update(kind, m)) && b[i] == AuditLog(Update(NewMessage, m)))
  {
    var ua, ub := Update(kind, m), Update(NewMessage, m);
    HandlerDecomposes(robotID, startTime, now, memUsage, ua);
    HandlerDecomposes(robotID, startTime, now, memUsage, ub);
    var rest := RecognisedEffects(robotID, startTime, now, memUsage, ua) + CueEffects(robotID, ua);
    assert RecognisedEffects(robotID, startTime, now, memUsage, ua) == RecognisedEffects(robotID, startTime, now, memUsage, ub);
    assert CueEffects(robotID, ua) == CueEffects(robotID, ub);
    ConcatAssociative(AuditEffects(robotID, ua), RecognisedEffects(robotID, startTime, now, memUsage, ua), CueEffects(robotID, ua));
    ConcatAssociative(AuditEffects(robotID, ub), RecognisedEffects(robotID, startTime, now, memUsage, ub), CueEffects(robotID, ub));
    SameAfterAudit(AuditEffects(robotID, ua), AuditEffects(robotID, ub), rest, ua, ub);
  }

  /** Two effect lists that differ only in their audit line, if any. */
  lemma SameAfterAudit(x: seq<Effect>, y: seq<Effect>, rest: seq<Effect>, ua: Update, ub: Update)
    requires (x == [AuditLog(ua)] && y == [AuditLog(ub)]) || (x == [] && y == [])
    ensures |x + rest| == |y + rest|
    ensures forall i :: 0 <= i < |x + rest| ==>
      (x + rest)[i] == (y + rest)[i] || ((x + rest)[i] == AuditLog(ua) && (y + rest)[i] == AuditLog(ub))
  {
  }

  /** Updates with an empty message payload do nothing at all. */
  lemma EmptyMessageDoesNothing(robotID: Option<int>, startTime: int, now: int, memUsage: nat, update: Update)
    requires update.message.kind == "messageEmpty"
    ensures OnUpdateNewMessage(robotID, startTime, now, memUsage, update) == []
  {
  }

  /** Until `onStart` has recorded the robot's id, every update is ignored. */
  lemma NothingBeforeStart(startTime: int, now: int, memUsage: nat, update: Update)
    ensures OnUpdateNewMessage(None, startTime, now, memUsage, update) == []
  {
  }

  /** No command effect ever includes a stop: only the sentinel check stops the robot. */
  lemma CommandNeverStops(c: Command, peer: Option<PeerRef>, id: int, age: int, memUsage: nat)
    ensures Stop !in CommandEffects(c, peer, id, age, memUsage)
  {
  }

  /** Every command edits the message that triggered it and no other. */
  lemma CommandEditsTrigger(c: Command, peer: Option<PeerRef>, id: int, age: int, memUsage: nat)
    ensures CommandEffects(c, peer, id, age, memUsage) != []
    ensures CommandEffects(c, peer, id, age, memUsage)[0].EditMessage?
    ensures forall e :: e in CommandEffects(c, peer, id, age, memUsage) && e.EditMessage? ==> e.peer == peer && e.id == id
  {
  }

  /** `logout` runs its own case and then, for want of a `break`, the `stop` case. */
  lemma LogoutFallsThroughToStop(peer: Option<PeerRef>, id: int, age: int, memUsage: nat)
    ensures CommandEffects(LogoutCommand, peer, id, age, memUsage)
         == [EditMessage(peer, id, LogoutText, false), Log(LogoutNotice), Logout, EditMessage(peer, id, Sentinel, false)]
    ensures CommandEffects(RestartCommand, peer, id, age, memUsage)
         == [EditMessage(peer, id, RestartText, false), Log(RestartNotice), Restart]
  {
  }

  // ---------------------------------------------------------------------------
  // The sentinel
  // ---------------------------------------------------------------------------

  /** The lower-cased sentinel does start with "robot ", but what follows is no keyword. */
  lemma SentinelIsNoCommand()
    ensures HasCommandPrefix(Lower(Sentinel))
    ensures Trim(Lower(Sentinel)[5..]) == "is stopping ..."
    ensures ParseCommand(Trim(Lower(Sentinel)[5..])) == None
  {
    LowerSentinel();
    SentinelTail();
    SentinelKeywordUnknown();
  }

  lemma SentinelTail()
    ensures HasCommandPrefix("robot is stopping ...")
    ensures Trim("robot is stopping ..."[5..]) == "is stopping ..."
  {
    SentinelSlices();
    TrimStripsPadding(" ", "is stopping ...", "");
  }

  /** A recognised command never comes from the sentinel text itself. */
  lemma CommandIsNotCue(robotID: Option<int>, m: Message)
    requires RecognisedCommand(robotID, m).Some?
    ensures !IsStopCue(robotID, m)
  {
    if m.text == Some(Sentinel) {
      SentinelIsNoCommand();
    }
  }

  /** The robot stops exactly when its own message reads the sentinel, in the original case. */
  lemma StopExactlyOnCue(robotID: Option<int>, startTime: int, now: int, memUsage: nat, update: Update)
    ensures Stop in OnUpdateNewMessage(robotID, startTime, now, memUsage, update) <==> IsStopCue(robotID, update.message)
  {
    HandlerDecomposes(robotID, startTime, now, memUsage, update);
    RecognisedNeverStops(robotID, startTime, now, memUsage, update);
    var audit := AuditEffects(robotID, update);
    var cue := CueEffects(robotID, update);
    assert Stop !in audit;
    assert Stop in cue <==> IsStopCue(robotID, update.message);
  }

  lemma RecognisedNeverStops(robotID: Option<int>, startTime: int, now: int, memUsage: nat, update: Update)
    ensures Stop !in RecognisedEffects(robotID, startTime, now, memUsage, update)
  {
    EffectsNeverStop(RecognisedCommand(robotID, update.message), update.message, now - startTime, memUsage);
  }

  lemma EffectsNeverStop(command: Option<Command>, m: Message, age: int, memUsage: nat)
    ensures Stop !in EffectsOf(command, m, age, memUsage)
  {
    if command.Some? {
      CommandNeverStops(command.value, m.toId, m.id.GetOr(0), age, memUsage);
    }
  }

  /**
   * A recognised command does exactly this: the audit line, then its case of
   * the switch, and no stop.
   */
  lemma CommandUpdate(robotID: Option<int>, startTime: int, now: int, memUsage: nat, update: Update, c: Command)
    requires RecognisedCommand(robotID, update.message) == Some(c)
    ensures var m := update.message;
      OnUpdateNewMessage(robotID, startTime, now, memUsage, update)
      == [AuditLog(update)] + CommandEffects(c, m.toId, m.id.GetOr(0), now - startTime, memUsage)
  {
    HandlerDecomposes(robotID, startTime, now, memUsage, update);
    CommandIsNotCue(robotID, update.message);
  }

  /**
   * No edit, log line, restart or logout unless the update carries a
   * recognised command: the message is not empty, it comes from the robot,
   * its text is truthy and, lower-cased, starts with "robot ".
   */
  lemma NothingWithoutCommand(robotID: Option<int>, startTime: int, now: int, memUsage: nat, update: Update)
    ensures forall e :: (e in OnUpdateNewMessage(robotID, startTime, now, memUsage, update) && !e.AuditLog? && !e.Stop?)
                     ==> RecognisedCommand(robotID, update.message).Some?
    ensures RecognisedCommand(robotID, update.message).Some? ==>
      var m := update.message;
      m.kind != "messageEmpty" && Some(m.fromId.GetOr(0)) == robotID && Truthy(m.text) && HasCommandPrefix(Lower(m.text.value))
  {
    HandlerDecomposes(robotID, startTime, now, memUsage, update);
  }

  /** The robot's own sentinel message is logged and stops the robot, and nothing else happens. */
  lemma CueUpdate(robotID: Option<int>, startTime: int, now: int, memUsage: nat, update: Update)
    requires IsStopCue(robotID, update.message)
    ensures OnUpdateNewMessage(robotID, startTime, now, memUsage, update) == [AuditLog(update), Stop]
  {
    HandlerDecomposes(robotID, startTime, now, memUsage, update);
    SentinelIsNoCommand();
    assert Truthy(Some(Sentinel));
    assert RecognisedCommand(robotID, update.message) == None;
    assert AuditEffects(robotID, update) == [AuditLog(update)];
  }

  /**
   * The two-step stop: `robot stop` (in any case) edits its own message into
   * the sentinel without stopping; when the edit comes back as the robot's
   * edited message, that update stops the robot and does nothing else but
   * the audit line.
   */
  lemma StopProtocol(robotID: Option<int>, startTime: int, now: int, memUsage: nat, update: Update)
    requires RecognisedCommand(robotID, update.message) == Some(StopCommand)
    ensures var m := update.message;
      var effects := OnUpdateNewMessage(robotID, startTime, now, memUsage, update);
      && effects == [AuditLog(update), EditMessage(m.toId, m.id.GetOr(0), Sentinel, false)]
      && Stop !in effects
    ensures var edited := Update(EditedMessage, update.message.(text := Some(Sentinel)));
      forall later: int, laterMem: nat ::
        OnUpdateNewMessage(robotID, startTime, later, laterMem, edited) == [AuditLog(edited), Stop]
  {
    CommandUpdate(robotID, startTime, now, memUsage, update, StopCommand);
    var edited := Update(EditedMessage, update.message.(text := Some(Sentinel)));
    forall later: int, laterMem: nat
      ensures OnUpdateNewMessage(robotID, startTime, later, laterMem, edited) == [AuditLog(edited), Stop]
    {
      CueUpdate(robotID, startTime, later, laterMem, edited);
    }
  }

  /**
   * Only the lower-cased text decides the command: two texts that lower-case
   * alike carry the same command, so the prefix and the keyword may be
   * written in any case.
   */
  lemma CaseInsensitive(robotID: Option<int>, m: Message, t: string)
    requires m.text.Some? && Lower(t) == Lower(m.text.value)
    ensures RecognisedCommand(robotID, m.(text := Some(t))) == RecognisedCommand(robotID, m)
  {
    LowerKeepsTruthy(t);
    LowerKeepsTruthy(m.text.value);
  }

  /**
   * Blanks between "robot " and the keyword, and after the keyword, are
   * ignored: any run of `trim`'s characters there leaves the command as it is.
   */
  lemma BlanksIgnored(robotID: Option<int>, m: Message, left: string, c: Command, right: string)
    requires ByRobot(robotID, m)
    requires AllTrimChars(left) && AllTrimChars(right)
    requires Lower(m.text.value) == "robot " + left + Keyword(c) + right
    ensures RecognisedCommand(robotID, m) == Some(c)
  {
    var k := Keyword(c);
    PaddedCommandText(Lower(m.text.value), left, k, right);
    KeywordEdges(c);
    TrimStripsPadding(" " + left, k, right);
    ParseCommandIsInverse(k, c);
  }

  /** The text "robot " + left + k + right passes the prefix test, and what follows "robot" is k padded. */
  lemma PaddedCommandText(low: string, left: string, k: string, right: string)
    requires low == "robot " + left + k + right
    ensures HasCommandPrefix(low)
    ensures low[5..] == (" " + left) + k + right
  {
    assert low == "robot" + ((" " + left) + k + right);
  }

  /**
   * The converse of `BlanksIgnored`: a recognised command comes from the
   * robot, and its lower-cased text is "robot ", a run of `trim` characters,
   * the keyword and another such run, and nothing else.
   */
  lemma RecognisedIsPadded(robotID: Option<int>, m: Message, c: Command)
    requires RecognisedCommand(robotID, m) == Some(c)
    ensures ByRobot(robotID, m)
    ensures exists left, right ::
              AllTrimChars(left) && AllTrimChars(right) && Lower(m.text.value) == "robot " + left + Keyword(c) + right
  {
    var low := Lower(m.text.value);
    ParseCommandIsInverse(Trim(low[5..]), c);
    LowPadded(low, Keyword(c));
  }

  /** A text that passes the prefix test and whose tail after "robot" trims to `k` is `k` padded after "robot ". */
  lemma LowPadded(low: string, k: string)
    requires HasCommandPrefix(low) && Trim(low[5..]) == k
    ensures exists left, right ::
              AllTrimChars(left) && AllTrimChars(right) && low == "robot " + left + k + right
  {
    var tail := low[5..];
    SpaceAfterRobot(low);
    var left, right := PaddedTail(tail, k);
    RobotJoin(low, left, k, right);
  }

  /** After "robot" comes the space of the prefix. */
  lemma SpaceAfterRobot(low: string)
    requires HasCommandPrefix(low)
    ensures |low[5..]| >= 1 && low[5..][0] == ' '
  {
    assert low[5..][0] == low[..6][5];
  }

  /** Putting "robot" back in front of the padded tail. */
  lemma RobotJoin(low: string, left: string, k: string, right: string)
    requires HasCommandPrefix(low) && low[5..] == " " + left + k + right
    ensures low == "robot " + left + k + right
  {
    assert low[..5] == "robot" by { assert low[..5] == low[..6][..5]; }
    assert low == low[..5] + low[5..];
  }

  /** A text starting with a space that trims to `k` is that space, a run of `trim` characters, `k` and another run. */
  lemma PaddedTail(tail: string, k: string) returns (left: string, right: string)
    requires |tail| >= 1 && tail[0] == ' ' && Trim(tail) == k
    ensures AllTrimChars(left) && AllTrimChars(right)
    ensures tail == " " + left + k + right
  {
    TrimIsSlice(tail);
    var i := LeadingTrim(tail);
    assert i >= 1;
    PaddedMiddle(tail, i, i + |k|);
    left, right := tail[1..i], tail[i + |k|..];
    assert tail[..i] == " " + left;
    assert forall j :: 0 <= j < |left| ==> left[j] == tail[..i][j + 1];
  }

  /** No keyword is empty or begins or ends with a character `trim` strips. */
  lemma KeywordEdges(c: Command)
    ensures var k := Keyword(c); k != [] && !IsTrimChar(k[0]) && !IsTrimChar(k[|k| - 1])
  {
  }

  /** An instance of both: "ROBOT  Stop \n" from the robot is the stop command. */
  lemma CommandIgnoresCaseAndBlanks(robotID: Option<int>, m: Message)
    requires ByRobot(robotID, m)
    requires m.text == Some("ROBOT  Stop \n")
    ensures RecognisedCommand(robotID, m) == Some(StopCommand)
  {
    LowerShouted();
    ShoutedSplit();
    BlanksIgnored(robotID, m, " ", StopCommand, " \n");
  }

  /** An update whose keyword is unknown edits nothing and changes nothing. */
  lemma UnknownKeywordDoesNothing(robotID: Option<int>, startTime: int, now: int, memUsage: nat, update: Update)
    requires RecognisedCommand(robotID, update.message).None?
    ensures forall e :: e in OnUpdateNewMessage(robotID, startTime, now, memUsage, update) ==> e.AuditLog? || e.Stop?
  {
    NothingWithoutCommand(robotID, startTime, now, memUsage, update);
  }

  // ---------------------------------------------------------------------------
  // Literal-string helpers: single facts about fixed texts, each proved on its
  // own so that the lemmas above stay cheap to check. They state nothing
  // about the handler.
  // ---------------------------------------------------------------------------

  /** The sentinel lower-cased. */
  lemma LowerSentinel()
    ensures Lower(Sentinel) == "robot is stopping ..."
  {
    var low := Lower(Sentinel);
    assert |low| == |"robot is stopping ..."|;
    forall k | 0 <= k < |low| ensures low[k] == "robot is stopping ..."[k] {
    }
  }

  lemma SentinelSlices()
    ensures "robot is stopping ..."[..6] == "robot "
    ensures "robot is stopping ..."[5..] == " " + "is stopping ..." + ""
  {
  }

  lemma SentinelKeywordUnknown()
    ensures ParseCommand("is stopping ...") == None
  {
  }

  lemma ShoutedSplit()
    ensures "robot  stop \n" == "robot " + " " + "stop" + " \n"
    ensures AllTrimChars(" ") && AllTrimChars(" \n")
  {
  }

  lemma LowerShouted()
    ensures Lower("ROBOT  Stop \n") == "robot  stop \n"
  {
    var low := Lower("ROBOT  Stop \n");
    assert |low| == |"robot  stop \n"|;
    forall k | 0 <= k < |low| ensures low[k] == "robot  stop \n"[k] {
    }
  }
}
