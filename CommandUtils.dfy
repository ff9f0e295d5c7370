/**
 * The per-invocation response controller `CommandUtil`: it remembers the
 * last response and whether the next `send` may edit it, optionally keeps
 * the messages of the invocation, and routes every response through the
 * channel or through the interaction. Every state-changing method is proved
 * to follow the functions of the Responses module.
 */
module CommandUtils {
  import opened Common
  import opened Interactions
  import opened Responses

  class CommandUtil {
    /** The handler's `storeMessages` setting. */
    const storeMessages: bool
    /** The message (or interaction presented as a message) that triggered the command. */
    const message: Trigger
    /** `!!message.interaction`. */
    const isSlash: bool
    var shouldEdit: bool
    var lastResponse: Option<Message>
    /** The message store; absent (not empty) when the handler does not store messages. */
    var messages: Option<map<Snowflake, Message>>
    /** The requests made on channels and message entities, in order. */
    var calls: seq<Call>

    ghost predicate Valid()
      reads this
    {
      isSlash == message.Slash? && messages.Some? == storeMessages
    }

    /** The interaction handle this controller may touch, if any. */
    function Itx(): set<object> {
      if message.Slash? then {message.am.interaction} else {}
    }

    /** The state `send` reads and writes. */
    function State(): Status
      reads this, Itx()
    {
      if message.Slash? then
        Status(shouldEdit, lastResponse, message.am.interaction.deferred, message.am.interaction.replied)
      else
        Status(shouldEdit, lastResponse, false, false)
    }

    /** The requests made on the interaction handle; none for a conventional message. */
    function ICalls(): seq<InteractionCall>
      reads Itx()
    {
      if message.Slash? then message.am.interaction.calls else []
    }

    constructor (storeMessages: bool, message: Trigger)
      ensures Valid()
      ensures this.storeMessages == storeMessages && this.message == message
      ensures !shouldEdit && lastResponse.None? && calls == []
      ensures messages == if storeMessages then Some(map[]) else None
    {
      this.storeMessages := storeMessages;
      this.message := message;
      shouldEdit := false;
      lastResponse := None;
      messages := if storeMessages then Some(map[]) else None;
      isSlash := message.Slash?;
      calls := [];
    }

    /** Records the last response: the last element of an array, or the message itself. */
    method SetLastResponse(sent: OneOrMany) returns (r: Option<Message>)
      modifies this`lastResponse
      ensures lastResponse == LastOf(sent) && r == lastResponse
    {
      match sent {
        case One(m) =>
          lastResponse := Some(m);
        case Many(ms) =>
          lastResponse := if ms == [] then None else Some(ms[|ms| - 1]);
      }
      return lastResponse;
    }

    /**
     * Adds the given messages to the store, one after the other, under their
     * ids; nothing changes when messages are not stored. Returns its input.
     */
    method AddMessage(input: OneOrMany) returns (r: OneOrMany)
      requires Valid()
      modifies this`messages
      ensures Valid() && r == input
      ensures storeMessages ==> messages == Some(StoreAll(old(messages).value, MessagesOf(input)))
      ensures !storeMessages ==> messages == old(messages)
    {
      if storeMessages {
        match input {
          case One(m) =>
            messages := Some(messages.value[m.id := m]);
            assert [m][..0] == [];
          case Many(ms) =>
            var i := 0;
            while i < |ms|
              invariant i <= |ms|
              invariant messages == Some(StoreAll(old(messages).value, ms[..i]))
            {
              messages := Some(messages.value[ms[i].id := ms[i]]);
              assert ms[..i + 1][..i] == ms[..i];
              i := i + 1;
            }
            assert ms[..i] == ms;
        }
      }
      return input;
    }

    /** Sets whether the next `send` may edit the last response; returns the controller. */
    method SetEditable(state: bool) returns (r: CommandUtil)
      modifies this`shouldEdit
      ensures shouldEdit == state && r == this
    {
      shouldEdit := state;
      return this;
    }

    /** `send`: edit the last response or send a new one; see `SendStep`. */
    method Send(options: SendInput, sent: OneOrMany, fetched: Message) returns (r: Outcome)
      requires Valid()
      modifies this`shouldEdit, this`lastResponse, this`calls, Itx()
      ensures Valid()
      ensures var step := SendStep(message, old(State()), options, sent, fetched);
              State() == step.status && r == step.out &&
              calls == old(calls) + step.calls && ICalls() == old(ICalls()) + step.icalls
    {
      ghost var step := SendStep(message, State(), options, sent, fetched);
      var hasFiles := HasFiles(options);
      if !isSlash {
        var o := StripEphemeral(options);
        if shouldEdit && !hasFiles {
          if lastResponse.None? {
            return Threw(NoLastResponse);
          }
          var last := lastResponse.value;
          if !last.deleted && last.attachments == 0 {
            calls := calls + [CallEdit(last, o)];
            return Msg(last);
          }
        }
        assert step == SendNewStep(message, State(), o, sent);
        calls := calls + [CallSend(message.channel, o)];
        var lastSent := SetLastResponse(sent);
        if lastSent.None? {
          return Threw(NoLastSent);
        }
        var self := SetEditable(lastSent.value.attachments == 0);
        return Sent(sent);
      } else {
        var o := StripReply(options);
        var itx := message.am.interaction;
        if lastResponse.Some? || itx.deferred || itx.replied {
          assert step == Step(State().(lastResponse := Some(fetched)), Msg(fetched), [], [CallEditReply(o), CallFetchReply]);
          itx.EditReply(o);
          var reply := itx.FetchReply(fetched);
          lastResponse := Some(reply);
          return Msg(reply);
        } else {
          assert InitialPending(State());
          itx.Reply(o);
          if !IsEphemeral(o) {
            var reply := itx.FetchReply(fetched);
            lastResponse := Some(reply);
            return Msg(reply);
          }
          return Nothing;
        }
      }
    }

    /** `sendNew`: always send a new message to the trigger's channel; see `SendNewStep`. */
    method SendNew(options: SendInput, sent: OneOrMany) returns (r: Outcome)
      requires Valid()
      modifies this`shouldEdit, this`lastResponse, this`calls
      ensures Valid()
      ensures var step := SendNewStep(message, old(State()), options, sent);
              State() == step.status && r == step.out && calls == old(calls) + step.calls
    {
      var channel := ChannelOf(message);
      if channel.None? {
        return Threw(NoChannel);
      }
      calls := calls + [CallSend(channel.value, options)];
      var lastSent := SetLastResponse(sent);
      if lastSent.None? {
        return Threw(NoLastSent);
      }
      var self := SetEditable(lastSent.value.attachments == 0);
      return Sent(sent);
    }

    /** `reply`: `send` with the options of `ReplyOptions`. */
    method Reply(options: SendInput, sent: OneOrMany, fetched: Message) returns (r: Outcome)
      requires Valid()
      modifies this`shouldEdit, this`lastResponse, this`calls, Itx()
      ensures Valid()
      ensures var step := SendStep(message, old(State()), ReplyOptions(options, old(shouldEdit), message), sent, fetched);
              State() == step.status && r == step.out &&
              calls == old(calls) + step.calls && ICalls() == old(ICalls()) + step.icalls
    {
      var o := ReplyOptions(options, shouldEdit, message);
      r := Send(o, sent, fetched);
    }

    /**
     * `edit`: edits the last response (for an interaction, through the
     * response's `editReply`); fails when there is no last response.
     */
    method Edit(options: SendInput) returns (r: Outcome)
      modifies this`calls
      ensures lastResponse.None? ==> r == Threw(NoLastResponse) && calls == old(calls)
      ensures lastResponse.Some? ==>
                r == Msg(lastResponse.value) &&
                calls == old(calls) + [if isSlash then CallEditReplyOn(lastResponse.value, options)
                                       else CallEdit(lastResponse.value, options)]
    {
      if lastResponse.None? {
        return Threw(NoLastResponse);
      }
      if isSlash {
        calls := calls + [CallEditReplyOn(lastResponse.value, options)];
      } else {
        calls := calls + [CallEdit(lastResponse.value, options)];
      }
      return Msg(lastResponse.value);
    }

    /**
     * `lastResponse?.delete()`: nothing when there is no last response;
     * otherwise deletes it, and the entity is then marked deleted.
     */
    method DeleteLastResponse() returns (r: Outcome)
      modifies this`lastResponse, this`calls
      ensures old(lastResponse).None? ==> r == Nothing && calls == old(calls) && lastResponse == old(lastResponse)
      ensures old(lastResponse).Some? ==>
                var m := old(lastResponse).value;
                calls == old(calls) + [CallDelete(m)] &&
                lastResponse == Some(m.(deleted := true)) && r == Msg(m.(deleted := true))
    {
      if lastResponse.None? {
        return Nothing;
      }
      var m := lastResponse.value;
      calls := calls + [CallDelete(m)];
      lastResponse := Some(m.(deleted := true));
      return Msg(lastResponse.value);
    }

    /**
     * `delete` as written: on an interaction it calls `deleteReply` on the
     * triggering message, which an `AkairoMessage` does not have.
     */
    method DeleteAsWritten() returns (r: Outcome)
      requires Valid()
      modifies this`lastResponse, this`calls
      ensures Valid()
      ensures isSlash ==> r == Threw(NotAFunction("deleteReply")) && calls == old(calls) && lastResponse == old(lastResponse)
      ensures !isSlash && old(lastResponse).None? ==> r == Nothing && calls == old(calls) && lastResponse == old(lastResponse)
      ensures !isSlash && old(lastResponse).Some? ==>
                var m := old(lastResponse).value;
                calls == old(calls) + [CallDelete(m)] &&
                lastResponse == Some(m.(deleted := true)) && r == Msg(m.(deleted := true))
    {
      if isSlash {
        return Threw(NotAFunction("deleteReply"));
      }
      r := DeleteLastResponse();
    }

    /**
     * `delete`: on an interaction, deletes the interaction's reply; on a
     * conventional message, deletes the last response if there is one and
     * otherwise does nothing, without failing.
     */
    method Delete() returns (r: Outcome)
      requires Valid()
      modifies this`lastResponse, this`calls, Itx()
      ensures Valid()
      ensures isSlash ==>
                r == Nothing && ICalls() == old(ICalls()) + [CallDeleteReply] &&
                calls == old(calls) && State() == old(State())
      ensures !isSlash && old(lastResponse).None? ==> r == Nothing && calls == old(calls) && lastResponse == old(lastResponse)
      ensures !isSlash && old(lastResponse).Some? ==>
                var m := old(lastResponse).value;
                calls == old(calls) + [CallDelete(m)] &&
                lastResponse == Some(m.(deleted := true)) && r == Msg(m.(deleted := true))
    {
      if isSlash {
        message.am.interaction.DeleteReply();
        return Nothing;
      }
      r := DeleteLastResponse();
    }
  }

  /**
   * `AkairoMessage.reply`: delegates to the controller the handler attached
   * to the message; on an interaction that is `send` with a string wrapped
   * as `{content}`. The message itself is a value and does not change.
   */
  method MessageReply(m: AkairoMessage, util: CommandUtil, options: SendInput, sent: OneOrMany, fetched: Message)
    returns (r: Outcome)
    requires util.Valid() && util.message == Slash(m)
    modifies util`shouldEdit, util`lastResponse, util`calls, m.interaction
    ensures util.Valid()
    ensures var step := SendStep(Slash(m), old(util.State()), Object(AsObject(options)), sent, fetched);
            util.State() == step.status && r == step.out &&
            util.calls == old(util.calls) + step.calls &&
            m.interaction.calls == old(m.interaction.calls) + step.icalls
  {
    ReplyOnInteractionIsSend(options, util.shouldEdit, util.message);
    r := util.Reply(options, sent, fetched);
  }
}
