/**
 * Shared vocabulary of the model: optional values, results, Discord
 * snowflake ids, the message entities the bot sends and receives, the
 * options passed to the transport, and the calls made on an interaction.
 */
module Common {

  /** An explicit optional value, standing for JavaScript's null/undefined. */
  datatype Option<+T> = None | Some(value: T) {
    /** The value, or the default when absent (JavaScript's `x ?? d`). */
    function GetOr(default: T): T {
      match this
      case Some(v) => v
      case None => default
    }
  }

  datatype Result<+T, +E> = Success(value: T) | Failure(error: E)

  /** A Discord id. */
  type Snowflake = string

  /**
   * A message entity as far as the response controller looks at it: its id,
   * whether it has been deleted, and how many attachments it carries
   * (`attachments.size`).
   */
  datatype Message = Message(id: Snowflake, deleted: bool, attachments: nat)

  /** An argument that is either one message or an array of messages. */
  datatype OneOrMany = One(message: Message) | Many(messages: seq<Message>)

  /** The legacy single `embed` option; only its file count matters here. */
  datatype Embed = Embed(files: nat)

  /** The `reply` option: an inline cross-reference to another message. */
  datatype ReplyRef = ReplyRef(messageReference: Snowflake, failIfNotExists: bool)

  /**
   * An options object as passed to `send`/`reply`. `files` is the length of
   * the `files` array (0 when absent). `payload` marks a `MessagePayload`
   * instance rather than a plain object.
   */
  datatype MessageOptions = MessageOptions(
    content: Option<string>,
    files: nat,
    embed: Option<Embed>,
    embeds: Option<seq<Embed>>,
    ephemeral: Option<bool>,
    reply: Option<ReplyRef>,
    failIfNotExists: Option<bool>,
    payload: bool)

  /** What the caller hands to `send`: a plain string or an options object. */
  datatype SendInput = Text(text: string) | Object(opts: MessageOptions)

  /** A plain options object holding only `content`. */
  function ContentOnly(s: string): (o: MessageOptions)
    ensures o.content == Some(s) && o.files == 0 && o.reply.None? && !o.payload
  {
    MessageOptions(Some(s), 0, None, None, None, None, None, false)
  }

  /** A request made on the interaction handle, in the order it was made. */
  datatype InteractionCall =
    | CallReply(options: SendInput)
    | CallEditReply(options: SendInput)
    | CallFetchReply
    | CallDeleteReply
}
