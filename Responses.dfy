/**
 * The decisions of the per-invocation response controller, as functions of
 * its state: whether `send` edits the last response, sends a new message, or
 * goes through the interaction's reply/editReply path; how `reply` decorates
 * its options; how the optional message store grows. The controller class in
 * CommandUtils.dfy is proved to follow these functions.
 */
module Responses {
  import opened Common
  import opened Interactions

  /**
   * The invocation a controller answers: a conventional message (with the
   * channel it was posted in) or an interaction presented as a message.
   */
  datatype Trigger = Conventional(msg: Message, channel: Snowflake) | Slash(am: AkairoMessage)

  function TriggerId(t: Trigger): Snowflake {
    match t
    case Conventional(m, _) => m.id
    case Slash(am) => am.id
  }

  /** `message.channel`; an interaction may come from no cached channel. */
  function ChannelOf(t: Trigger): Option<Snowflake> {
    match t
    case Conventional(_, c) => Some(c)
    case Slash(am) => am.channel
  }

  /** `message.deleted`; an `AkairoMessage` has no such field, so it reads as false. */
  predicate TriggerDeleted(t: Trigger) {
    t.Conventional? && t.msg.deleted
  }

  /**
   * The state `send` reads and writes: the controller's `shouldEdit` and
   * `lastResponse`, and the interaction's `deferred` and `replied` flags
   * (both false for a conventional message).
   */
  datatype Status = Status(shouldEdit: bool, lastResponse: Option<Message>, deferred: bool, replied: bool)

  /** A request made on a channel or on a message entity. */
  datatype Call =
    | CallSend(channel: Snowflake, options: SendInput)
    | CallEdit(target: Message, options: SendInput)
    | CallDelete(target: Message)
    | CallEditReplyOn(target: Message, options: SendInput)

  /** A TypeError the JavaScript raises by reading a property of null/undefined or calling a missing method. */
  datatype Fault =
    | NoLastResponse    // `this.lastResponse.deleted` with a null last response
    | NoChannel         // `this.message.channel.send` with a null channel
    | NoLastSent        // `lastSent.attachments` after an empty array was sent
    | NotAFunction(name: string)

  /** What an operation resolves to. */
  datatype Outcome = Nothing | Msg(message: Message) | Sent(sent: OneOrMany) | Threw(fault: Fault)

  /** The effect of one operation: new status, result, and the requests made. */
  datatype Step = Step(status: Status, out: Outcome, calls: seq<Call>, icalls: seq<InteractionCall>)

  /** `options.files?.length > 0 || options.embed?.files?.length > 0`; a string has neither. */
  function HasFiles(options: SendInput): (r: bool)
    ensures options.Text? ==> !r
    ensures options.Object? && options.opts.files > 0 ==> r
    ensures options.Object? && options.opts.embed.Some? && options.opts.embed.value.files > 0 ==> r
    ensures r ==> options.opts.files > 0 || (options.opts.embed.Some? && options.opts.embed.value.files > 0)
  {
    options.Object? && (options.opts.files > 0 || (options.opts.embed.Some? && options.opts.embed.value.files > 0))
  }

  /** `delete options.ephemeral`; deleting a property of a string changes nothing. */
  function StripEphemeral(options: SendInput): (r: SendInput)
    ensures r.Object? ==> r.opts.ephemeral.None?
    ensures options.Text? ==> r == options
    ensures options.Object? ==> r.Object? && r.opts.(ephemeral := options.opts.ephemeral) == options.opts
  {
    match options
    case Text(_) => options
    case Object(o) => Object(o.(ephemeral := None))
  }

  /** `delete options.reply`. */
  function StripReply(options: SendInput): (r: SendInput)
    ensures r.Object? ==> r.opts.reply.None?
    ensures options.Text? ==> r == options
    ensures options.Object? ==> r.Object? && r.opts.(reply := options.opts.reply) == options.opts
  {
    match options
    case Text(_) => options
    case Object(o) => Object(o.(reply := None))
  }

  /** `options.ephemeral` is truthy. */
  predicate IsEphemeral(options: SendInput) {
    options.Object? && options.opts.ephemeral == Some(true)
  }

  /** `message.slice(-1)[0]` for an array, the message itself otherwise. */
  function LastOf(sent: OneOrMany): (r: Option<Message>)
    ensures sent.One? ==> r == Some(sent.message)
    ensures sent.Many? && |sent.messages| > 0 ==> r == Some(sent.messages[|sent.messages| - 1])
    ensures sent.Many? && |sent.messages| == 0 ==> r.None?
  {
    match sent
    case One(m) => Some(m)
    case Many(ms) => if ms == [] then None else Some(ms[|ms| - 1])
  }

  /** The messages an argument stands for, in order. */
  function MessagesOf(input: OneOrMany): (r: seq<Message>)
    ensures input.One? ==> r == [input.message]
    ensures input.Many? ==> r == input.messages
  {
    match input
    case One(m) => [m]
    case Many(ms) => ms
  }

  /** The store after `messages.set(msg.id, msg)` for each message in turn. */
  function StoreAll(store: map<Snowflake, Message>, ms: seq<Message>): (r: map<Snowflake, Message>)
    ensures store.Keys <= r.Keys
    ensures ms != [] ==> ms[|ms| - 1].id in r && r[ms[|ms| - 1].id] == ms[|ms| - 1]
    decreases |ms|
  {
    if ms == [] then store
    else
      var last := ms[|ms| - 1];
      StoreAll(store, ms[..|ms| - 1])[last.id := last]
  }

  /** Afterwards the store holds its old keys and the id of every given message. */
  lemma {:induction false} StoreAllKeys(store: map<Snowflake, Message>, ms: seq<Message>)
    ensures StoreAll(store, ms).Keys == store.Keys + set m | m in ms :: m.id
    decreases |ms|
  {
    if ms != [] {
      var init, last := ms[..|ms| - 1], ms[|ms| - 1];
      StoreAllKeys(store, init);
      assert ms == init + [last];
      assert (set m | m in ms :: m.id) == (set m | m in init :: m.id) + {last.id};
    }
  }

  /**
   * A message is stored under its id unless a later message in the same call
   * has the same id: a repeated id overwrites the earlier entry.
   */
  lemma {:induction false} StoreAllLatest(store: map<Snowflake, Message>, ms: seq<Message>, j: nat)
    requires j < |ms|
    requires forall k :: j < k < |ms| ==> ms[k].id != ms[j].id
    ensures ms[j].id in StoreAll(store, ms) && StoreAll(store, ms)[ms[j].id] == ms[j]
    decreases |ms|
  {
    if j < |ms| - 1 {
      StoreAllLatest(store, ms[..|ms| - 1], j);
    }
  }

  /** Entries under ids that none of the given messages carry are left as they were. */
  lemma {:induction false} StoreAllUntouched(store: map<Snowflake, Message>, ms: seq<Message>, id: Snowflake)
    requires forall m :: m in ms ==> m.id != id
    ensures (id in StoreAll(store, ms)) == (id in store)
    ensures id in store ==> StoreAll(store, ms)[id] == store[id]
    decreases |ms|
  {
    if ms != [] {
      StoreAllUntouched(store, ms[..|ms| - 1], id);
    }
  }

  /** A string is wrapped as `{content}`; an options object is used as it is. */
  function AsObject(options: SendInput): (o: MessageOptions)
    ensures options.Text? ==> o == ContentOnly(options.text)
    ensures options.Object? ==> o == options.opts
  {
    match options
    case Text(s) => ContentOnly(s)
    case Object(o) => o
  }

  /** The condition under which `reply` adds an inline cross-reference. */
  predicate InjectsReference(t: Trigger, shouldEdit: bool, o: MessageOptions) {
    !t.Slash? && !shouldEdit && !o.payload && !TriggerDeleted(t)
  }

  /**
   * The options `reply` hands to `send`: the caller's options (a string
   * wrapped as `{content}`), with `reply = {messageReference, failIfNotExists}`
   * added on a conventional, undeleted trigger while not in edit mode, unless
   * the options are a `MessagePayload`. Nothing else is changed.
   */
  function ReplyOptions(options: SendInput, shouldEdit: bool, t: Trigger): (r: SendInput)
    ensures r.Object?
    ensures r.opts.(reply := AsObject(options).reply) == AsObject(options)
    ensures InjectsReference(t, shouldEdit, AsObject(options)) ==>
              r.opts.reply == Some(ReplyRef(TriggerId(t), AsObject(options).failIfNotExists.GetOr(true)))
    ensures !InjectsReference(t, shouldEdit, AsObject(options)) ==> r.opts == AsObject(options)
  {
    var o := AsObject(options);
    if InjectsReference(t, shouldEdit, o) then
      Object(o.(reply := Some(ReplyRef(TriggerId(t), o.failIfNotExists.GetOr(true)))))
    else
      Object(o)
  }

  /** `failIfNotExists` defaults to true when the caller leaves it out. */
  lemma ReplyDefaultsToFailIfNotExists(options: SendInput, t: Trigger)
    requires t.Conventional? && !t.msg.deleted
    requires options.Text? || (!options.opts.payload && options.opts.failIfNotExists.None?)
    ensures ReplyOptions(options, false, t).opts.reply == Some(ReplyRef(t.msg.id, true))
  {
  }

  /** On an interaction, `reply` is `send` with the string wrapped. */
  lemma ReplyOnInteractionIsSend(options: SendInput, shouldEdit: bool, t: Trigger)
    requires t.Slash?
    ensures ReplyOptions(options, shouldEdit, t) == Object(AsObject(options))
  {
  }

  /**
   * The upstream `transformOptions`: a string becomes `{content}`, an object
   * is copied into a plain object; an empty or missing content becomes null
   * and missing embeds become the empty list.
   */
  function TransformOptions(options: SendInput): (r: MessageOptions)
    ensures r.content.None? || r.content.value != ""
    ensures r.embeds.Some? && !r.payload
    ensures options.Text? ==> r.content == (if options.text == "" then None else Some(options.text))
    ensures options.Text? ==> r.embeds == Some([]) && r.files == 0 && r.reply.None?
    ensures options.Object? ==>
              r.(content := options.opts.content, embeds := options.opts.embeds) == options.opts.(payload := false)
    ensures options.Object? && options.opts.content.Some? && options.opts.content.value != "" ==>
              r.content == options.opts.content
    ensures options.Object? && options.opts.embeds.Some? ==> r.embeds == options.opts.embeds
  {
    var o := match options
      case Text(s) => ContentOnly(s)
      case Object(o) => o.(payload := false);
    o.(content := if o.content.None? || o.content.value == "" then None else o.content,
       embeds := if o.embeds.None? then Some([]) else o.embeds)
  }

  /** Transforming already transformed options changes nothing. */
  lemma TransformIdempotent(options: SendInput)
    ensures TransformOptions(Object(TransformOptions(options))) == TransformOptions(options)
  {
  }

  /** No response and no acknowledgement yet: the next interaction `send` is the initial reply. */
  predicate InitialPending(s: Status) {
    s.lastResponse.None? && !s.deferred && !s.replied
  }

  /** The condition of the edit path of a conventional `send`. */
  predicate EditsLast(s: Status, options: SendInput) {
    s.shouldEdit && !HasFiles(options) && s.lastResponse.Some? &&
    !s.lastResponse.value.deleted && s.lastResponse.value.attachments == 0
  }

  /** The number of initial replies among the interaction requests. */
  function Replies(calls: seq<InteractionCall>): nat {
    if calls == [] then 0 else (if calls[0].CallReply? then 1 else 0) + Replies(calls[1..])
  }

  /**
   * `sendNew`: send to the trigger's channel, record the result as the last
   * response, and make the controller editable exactly when that response
   * has no attachments. `sent` is what the channel returns.
   */
  function SendNewStep(t: Trigger, s: Status, options: SendInput, sent: OneOrMany): (r: Step)
    ensures r.icalls == [] && r.status.deferred == s.deferred && r.status.replied == s.replied
    ensures ChannelOf(t).None? ==> r == Step(s, Threw(NoChannel), [], [])
    ensures ChannelOf(t).Some? ==>
              r.calls == [CallSend(ChannelOf(t).value, options)] && r.status.lastResponse == LastOf(sent)
    ensures ChannelOf(t).Some? && LastOf(sent).Some? ==>
              r.status.shouldEdit == (LastOf(sent).value.attachments == 0) && r.out == Sent(sent)
    ensures ChannelOf(t).Some? && LastOf(sent).None? ==>
              r.status.shouldEdit == s.shouldEdit && r.out == Threw(NoLastSent)
  {
    match ChannelOf(t)
    case None => Step(s, Threw(NoChannel), [], [])
    case Some(channel) =>
      var last := LastOf(sent);
      var calls := [CallSend(channel, options)];
      if last.None? then Step(s.(lastResponse := None), Threw(NoLastSent), calls, [])
      else Step(s.(lastResponse := last, shouldEdit := last.value.attachments == 0), Sent(sent), calls, [])
  }

  /**
   * `send`. On a conventional trigger: strip `ephemeral`, edit the last
   * response when in edit mode and neither the options nor that response
   * carry files and it is not deleted, otherwise behave as `sendNew`. On an
   * interaction: strip `reply`, edit and re-fetch the reply once anything
   * was sent or acknowledged, otherwise make the initial reply and fetch it
   * unless it is ephemeral. `fetched` is what `fetchReply` returns.
   */
  function SendStep(t: Trigger, s: Status, options: SendInput, sent: OneOrMany, fetched: Message): (r: Step)
    ensures !t.Slash? ==> r.icalls == [] && r.status.deferred == s.deferred && r.status.replied == s.replied
    ensures !t.Slash? && EditsLast(s, options) ==>
              r.status == s && r.out == Msg(s.lastResponse.value) &&
              r.calls == [CallEdit(s.lastResponse.value, StripEphemeral(options))]
    ensures t.Slash? ==> r.calls == [] && r.status.shouldEdit == s.shouldEdit && r.status.deferred == s.deferred
    ensures t.Slash? ==> !InitialPending(r.status)
    ensures t.Slash? ==> Replies(r.icalls) == if InitialPending(s) then 1 else 0
    ensures t.Slash? && !InitialPending(s) ==>
              r.status == s.(lastResponse := Some(fetched)) && r.out == Msg(fetched) &&
              r.icalls == [CallEditReply(StripReply(options)), CallFetchReply]
    ensures t.Slash? && InitialPending(s) && !IsEphemeral(StripReply(options)) ==>
              r.status == s.(replied := true, lastResponse := Some(fetched)) && r.out == Msg(fetched) &&
              r.icalls == [CallReply(StripReply(options)), CallFetchReply]
    ensures t.Slash? && InitialPending(s) && IsEphemeral(StripReply(options)) ==>
              r.status == s.(replied := true) && r.out == Nothing && r.icalls == [CallReply(StripReply(options))]
  {
    if !t.Slash? then
      var o := StripEphemeral(options);
      if s.shouldEdit && !HasFiles(options) && s.lastResponse.None? then
        Step(s, Threw(NoLastResponse), [], [])
      else if EditsLast(s, options) then
        Step(s, Msg(s.lastResponse.value), [CallEdit(s.lastResponse.value, o)], [])
      else
        SendNewStep(t, s, o, sent)
    else
      var o := StripReply(options);
      assert Replies([CallFetchReply]) == 0 by {
        assert [CallFetchReply][1..] == [];
      }
      if !InitialPending(s) then
        assert [CallEditReply(o), CallFetchReply][1..] == [CallFetchReply];
        Step(s.(lastResponse := Some(fetched)), Msg(fetched), [], [CallEditReply(o), CallFetchReply])
      else if !IsEphemeral(o) then
        assert [CallReply(o), CallFetchReply][1..] == [CallFetchReply];
        Step(s.(replied := true, lastResponse := Some(fetched)), Msg(fetched), [], [CallReply(o), CallFetchReply])
      else
        Step(s.(replied := true), Nothing, [], [CallReply(o)])
  }

  /** In edit mode with no last response and no files, a conventional `send` fails before any request. */
  lemma SendWithoutLastResponseThrows(t: Trigger, s: Status, options: SendInput, sent: OneOrMany, fetched: Message)
    requires t.Conventional? && s.shouldEdit && !HasFiles(options) && s.lastResponse.None?
    ensures SendStep(t, s, options, sent, fetched) == Step(s, Threw(NoLastResponse), [], [])
  {
  }

  /**
   * When the edit condition fails, a conventional `send` is `sendNew` on the
   * options with `ephemeral` removed.
   */
  lemma SendFallsBackToSendNew(t: Trigger, s: Status, options: SendInput, sent: OneOrMany, fetched: Message)
    requires t.Conventional? && !EditsLast(s, options)
    requires !(s.shouldEdit && !HasFiles(options) && s.lastResponse.None?)
    ensures SendStep(t, s, options, sent, fetched) == SendNewStep(t, s, StripEphemeral(options), sent)
    ensures SendStep(t, s, options, sent, fetched).calls == [CallSend(t.channel, StripEphemeral(options))]
  {
  }

  /** `sendNew` does not look at `shouldEdit`. */
  lemma SendNewIgnoresShouldEdit(t: Trigger, s: Status, b: bool, options: SendInput, sent: OneOrMany)
    requires ChannelOf(t).Some? && LastOf(sent).Some?
    ensures SendNewStep(t, s.(shouldEdit := b), options, sent) == SendNewStep(t, s, options, sent)
  {
  }

  /**
   * A response with attachments leaves the controller not editable, so the
   * next conventional `send` again sends a new message.
   */
  lemma AttachmentLocks(t: Trigger, s: Status, o1: SendInput, o2: SendInput, sent1: OneOrMany, sent2: OneOrMany, f: Message)
    requires t.Conventional? && LastOf(sent1).Some? && LastOf(sent1).value.attachments > 0
    requires !EditsLast(s, o1) && !(s.shouldEdit && !HasFiles(o1) && s.lastResponse.None?)
    ensures var s1 := SendStep(t, s, o1, sent1, f).status;
            !s1.shouldEdit && SendStep(t, s1, o2, sent2, f).calls == [CallSend(t.channel, StripEphemeral(o2))]
  {
  }

  /**
   * Two sequential conventional sends never both create a new message when
   * the first one created an editable response: the second edits it.
   */
  lemma SendThenEdit(t: Trigger, s: Status, o1: SendInput, o2: SendInput, sent1: OneOrMany, sent2: OneOrMany, f: Message)
    requires t.Conventional? && !HasFiles(o2)
    requires SendStep(t, s, o1, sent1, f).calls == [CallSend(t.channel, StripEphemeral(o1))]
    requires LastOf(sent1).Some? && !LastOf(sent1).value.deleted && LastOf(sent1).value.attachments == 0
    ensures var s1 := SendStep(t, s, o1, sent1, f).status;
            s1.lastResponse == LastOf(sent1) &&
            SendStep(t, s1, o2, sent2, f) == Step(s1, Msg(LastOf(sent1).value), [CallEdit(LastOf(sent1).value, StripEphemeral(o2))], [])
  {
  }

  /**
   * On an interaction that was neither replied to nor deferred, the first
   * `send` makes exactly one initial reply, and a second `send` edits it.
   */
  lemma InitialReplyOnce(t: Trigger, s: Status, o1: SendInput, o2: SendInput, sent: OneOrMany, f1: Message, f2: Message)
    requires t.Slash? && InitialPending(s)
    ensures var r1 := SendStep(t, s, o1, sent, f1);
            var r2 := SendStep(t, r1.status, o2, sent, f2);
            r1.icalls[0] == CallReply(StripReply(o1)) && Replies(r1.icalls) == 1 &&
            r2.icalls == [CallEditReply(StripReply(o2)), CallFetchReply] && Replies(r2.icalls) == 0
  {
  }

  /** An ephemeral initial reply is not recorded as the last response. */
  lemma EphemeralReplyNotRecorded(t: Trigger, s: Status, options: SendInput, sent: OneOrMany, f: Message)
    requires t.Slash? && InitialPending(s) && IsEphemeral(options)
    ensures var r := SendStep(t, s, options, sent, f);
            r.status.lastResponse.None? && r.status.replied && r.out == Nothing && r.icalls == [CallReply(StripReply(options))]
  {
  }
}
