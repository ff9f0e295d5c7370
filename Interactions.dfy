/**
 * The interaction normaliser: an `AkairoMessage` is a slash-command
 * interaction presented as a message. Its text content is synthesised from
 * the command name and the command's declared options, in declaration order.
 */
module Interactions {
  import opened Common
  import Client

  /** A slash option as the command declares it; `required` may be omitted. */
  datatype SlashOption = SlashOption(name: string, required: Option<bool>)

  /**
   * An option as the interaction supplies it. `value` is the value already
   * rendered as text by a template literal; `None` is an option without a
   * value.
   */
  datatype Supplied = Supplied(name: string, value: Option<string>)

  /** The part of a command definition the normaliser reads. */
  datatype Command = Command(slashOptions: seq<SlashOption>)

  /**
   * The platform's interaction handle. Its identifying fields are fixed;
   * `deferred` and `replied` are changed by the platform library (and by
   * whoever defers the interaction); `calls` records, in order, the requests
   * made on the handle.
   */
  class Interaction {
    const id: Snowflake
    const user: Snowflake
    const channel: Option<Snowflake>
    const guild: Option<Snowflake>
    const member: Option<Snowflake>
    const createdAt: int
    const createdTimestamp: int
    const commandName: string
    const options: seq<Supplied>
    var deferred: bool
    var replied: bool
    var calls: seq<InteractionCall>

    constructor (id: Snowflake, user: Snowflake, channel: Option<Snowflake>, guild: Option<Snowflake>,
                 member: Option<Snowflake>, createdAt: int, createdTimestamp: int, commandName: string,
                 options: seq<Supplied>)
      ensures this.id == id && this.user == user && this.channel == channel && this.guild == guild
      ensures this.member == member && this.createdAt == createdAt && this.createdTimestamp == createdTimestamp
      ensures this.commandName == commandName && this.options == options
      ensures !deferred && !replied && calls == []
    {
      this.id, this.user, this.channel, this.guild := id, user, channel, guild;
      this.member, this.createdAt, this.createdTimestamp := member, createdAt, createdTimestamp;
      this.commandName, this.options := commandName, options;
      deferred, replied, calls := false, false, [];
    }

    /** The initial reply; afterwards the interaction counts as replied. */
    method Reply(o: SendInput)
      modifies this
      ensures replied && deferred == old(deferred)
      ensures calls == old(calls) + [CallReply(o)]
    {
      replied := true;
      calls := calls + [CallReply(o)];
    }

    /** Edits the existing reply. */
    method EditReply(o: SendInput)
      modifies this
      ensures replied == old(replied) && deferred == old(deferred)
      ensures calls == old(calls) + [CallEditReply(o)]
    {
      calls := calls + [CallEditReply(o)];
    }

    /** Fetches the reply; `answer` is what the platform returns. */
    method FetchReply(answer: Message) returns (m: Message)
      modifies this
      ensures m == answer
      ensures replied == old(replied) && deferred == old(deferred)
      ensures calls == old(calls) + [CallFetchReply]
    {
      m := answer;
      calls := calls + [CallFetchReply];
    }

    /** Deletes the reply. */
    method DeleteReply()
      modifies this
      ensures replied == old(replied) && deferred == old(deferred)
      ensures calls == old(calls) + [CallDeleteReply]
    {
      calls := calls + [CallDeleteReply];
    }
  }

  datatype Parsed = Parsed(slash: bool)

  /** The placeholder `util` an `AkairoMessage` starts with: `{parsed: {slash}}`. */
  datatype UtilStub = UtilStub(parsed: Parsed)

  /** An interaction presented as a message. */
  datatype AkairoMessage = AkairoMessage(
    author: Snowflake,
    channel: Option<Snowflake>,
    client: Client.AkairoClient,
    content: string,
    createdAt: int,
    createdTimestamp: int,
    guild: Option<Snowflake>,
    id: Snowflake,
    interaction: Interaction,
    member: Option<Snowflake>,
    replied: bool,
    util: UtilStub)

  /** A required option the interaction does not carry. */
  datatype NormaliseError = OptionNotFound(name: string)

  /** The first supplied option with the given name. */
  function Find(supplied: seq<Supplied>, name: string): (r: Option<Supplied>)
    ensures r.Some? ==> r.value in supplied && r.value.name == name
    ensures r.None? <==> forall o :: o in supplied ==> o.name != name
    decreases |supplied|
  {
    if supplied == [] then None
    else if supplied[0].name == name then Some(supplied[0])
    else Find(supplied[1..], name)
  }

  /** The lookup returns the first supplied option with the name, not a later one. */
  lemma {:induction false} FindFirst(supplied: seq<Supplied>, name: string, k: nat)
    requires k < |supplied| && supplied[k].name == name
    requires forall j :: 0 <= j < k ==> supplied[j].name != name
    ensures Find(supplied, name) == Some(supplied[k])
    decreases k
  {
    if k > 0 {
      FindFirst(supplied[1..], name, k - 1);
    }
  }

  /**
   * `interaction.options.get(name, required)`: the option, null when it is
   * absent and optional, and an error when it is absent and required.
   */
  function GetOption(supplied: seq<Supplied>, name: string, required: bool): (r: Result<Option<Supplied>, NormaliseError>)
    ensures r.Failure? <==> required && Find(supplied, name).None?
    ensures r.Failure? ==> r.error == OptionNotFound(name)
    ensures r.Success? ==> r.value == Find(supplied, name)
  {
    var found := Find(supplied, name);
    if found.None? && required then Failure(OptionNotFound(name)) else Success(found)
  }

  /** `found?.value` inside a template literal: an absent value prints as "undefined". */
  function ValueText(found: Option<Supplied>): string {
    if found.Some? && found.value.value.Some? then found.value.value.value else "undefined"
  }

  /** The text appended for one declared option. */
  function Piece(option: SlashOption, supplied: seq<Supplied>): string {
    " " + option.name + ": " + ValueText(Find(supplied, option.name))
  }

  /** The pieces of all declared options, concatenated in declaration order. */
  function Render(options: seq<SlashOption>, supplied: seq<Supplied>): (r: string)
    ensures (r == "") == (options == [])
    ensures options != [] ==> r[0] == ' '
    decreases |options|
  {
    if options == [] then "" else Piece(options[0], supplied) + Render(options[1..], supplied)
  }

  /** `option.required || false`, and the lookup then fails. */
  predicate Missing(option: SlashOption, supplied: seq<Supplied>) {
    option.required.GetOr(false) && Find(supplied, option.name).None?
  }

  /** Rendering distributes over concatenation of option lists. */
  lemma {:induction false} RenderConcat(a: seq<SlashOption>, b: seq<SlashOption>, supplied: seq<Supplied>)
    ensures Render(a + b, supplied) == Render(a, supplied) + Render(b, supplied)
    decreases |a|
  {
    if a == [] {
      assert a + b == b;
    } else {
      assert (a + b)[0] == a[0];
      assert (a + b)[1..] == a[1..] + b;
      RenderConcat(a[1..], b, supplied);
    }
  }

  /** Appending one declared option appends exactly its piece. */
  lemma RenderSnoc(a: seq<SlashOption>, option: SlashOption, supplied: seq<Supplied>)
    ensures Render(a + [option], supplied) == Render(a, supplied) + Piece(option, supplied)
  {
    RenderConcat(a, [option], supplied);
    assert Render([option], supplied) == Piece(option, supplied) + Render([], supplied);
  }

  /** Each piece is at least `" "`, `": "` and the name long. */
  lemma {:induction false} RenderLength(options: seq<SlashOption>, supplied: seq<Supplied>)
    ensures |Render(options, supplied)| >= 3 * |options|
    decreases |options|
  {
    if options != [] {
      RenderLength(options[1..], supplied);
    }
  }

  /**
   * The rendering of a longer prefix of the declared options extends the
   * rendering of a shorter one, by at least three characters per option.
   */
  lemma RenderPrefixGrows(options: seq<SlashOption>, supplied: seq<Supplied>, i: nat, j: nat)
    requires i <= j <= |options|
    ensures Render(options[..i], supplied) <= Render(options[..j], supplied)
    ensures |Render(options[..j], supplied)| >= |Render(options[..i], supplied)| + 3 * (j - i)
  {
    assert options[..j] == options[..i] + options[i..j];
    RenderConcat(options[..i], options[i..j], supplied);
    RenderLength(options[i..j], supplied);
  }

  /** A declared option the interaction lacks renders as `" name: undefined"`. */
  lemma AbsentRendersUndefined(option: SlashOption, supplied: seq<Supplied>)
    requires forall o :: o in supplied ==> o.name != option.name
    ensures Piece(option, supplied) == " " + option.name + ": undefined"
  {
  }

  /** No two supplied options share a name. */
  predicate DistinctNames(supplied: seq<Supplied>) {
    forall i, j :: 0 <= i < j < |supplied| ==> supplied[i].name != supplied[j].name
  }

  lemma FindDistinct(supplied: seq<Supplied>, o: Supplied)
    requires DistinctNames(supplied) && o in supplied
    ensures Find(supplied, o.name) == Some(o)
  {
    var r := Find(supplied, o.name);
    var k :| 0 <= k < |supplied| && supplied[k] == o;
    var m :| 0 <= m < |supplied| && supplied[m] == r.value;
    assert k == m;
  }

  /**
   * The synthesised text depends on which options were supplied, not on the
   * order in which they were supplied.
   */
  lemma {:induction false} RenderIgnoresSupplyOrder(options: seq<SlashOption>, s1: seq<Supplied>, s2: seq<Supplied>)
    requires DistinctNames(s1) && DistinctNames(s2)
    requires forall o :: o in s1 <==> o in s2
    ensures Render(options, s1) == Render(options, s2)
    decreases |options|
  {
    if options != [] {
      var name := options[0].name;
      var f1, f2 := Find(s1, name), Find(s2, name);
      if f1.Some? {
        FindDistinct(s2, f1.value);
      }
      assert Piece(options[0], s1) == Piece(options[0], s2);
      RenderIgnoresSupplyOrder(options[1..], s1, s2);
    }
  }

  /** One iteration of the constructor's loop appends the next option's piece. */
  lemma RenderStep(head: string, options: seq<SlashOption>, i: nat, supplied: seq<Supplied>)
    requires i < |options|
    ensures head + Render(options[..i], supplied) + Piece(options[i], supplied) == head + Render(options[..i + 1], supplied)
  {
    assert options[..i + 1] == options[..i] + [options[i]];
    RenderSnoc(options[..i], options[i], supplied);
  }

  /**
   * The constructor: copies the interaction's fields and builds the content
   * `"/" + commandName` followed by `" name: value"` for every declared
   * option. A required option the interaction lacks aborts construction.
   */
  method NewAkairoMessage(client: Client.AkairoClient, interaction: Interaction, slash: bool, replied: bool, command: Command)
    returns (r: Result<AkairoMessage, NormaliseError>)
    ensures r.Success? <==> forall k :: 0 <= k < |command.slashOptions| ==> !Missing(command.slashOptions[k], interaction.options)
    ensures r.Failure? ==>
      exists k :: 0 <= k < |command.slashOptions| && Missing(command.slashOptions[k], interaction.options) &&
                  r.error == OptionNotFound(command.slashOptions[k].name) &&
                  forall j :: 0 <= j < k ==> !Missing(command.slashOptions[j], interaction.options)
    ensures r.Success? ==> r.value.content == "/" + interaction.commandName + Render(command.slashOptions, interaction.options)
    ensures r.Success? ==>
      && r.value.author == interaction.user && r.value.channel == interaction.channel
      && r.value.guild == interaction.guild && r.value.id == interaction.id
      && r.value.member == interaction.member && r.value.createdAt == interaction.createdAt
      && r.value.createdTimestamp == interaction.createdTimestamp
      && r.value.interaction == interaction && r.value.client == client
      && r.value.replied == replied && r.value.util == UtilStub(Parsed(slash))
  {
    var options := command.slashOptions;
    var content := "/" + interaction.commandName;
    var i := 0;
    while i < |options|
      invariant i <= |options|
      invariant content == "/" + interaction.commandName + Render(options[..i], interaction.options)
      invariant forall j :: 0 <= j < i ==> !Missing(options[j], interaction.options)
    {
      var option := options[i];
      var got := GetOption(interaction.options, option.name, option.required.GetOr(false));
      if got.Failure? {
        assert Missing(options[i], interaction.options);
        return Failure(got.error);
      }
      var piece := " " + option.name + ": " + ValueText(got.value);
      RenderStep("/" + interaction.commandName, options, i, interaction.options);
      content := content + piece;
      i := i + 1;
    }
    assert options[..i] == options;
    r := Success(AkairoMessage(
      interaction.user, interaction.channel, client, content, interaction.createdAt,
      interaction.createdTimestamp, interaction.guild, interaction.id, interaction,
      interaction.member, replied, UtilStub(Parsed(slash))));
  }

  /** `delete`: deletes the interaction's reply and changes nothing else. */
  method Delete(m: AkairoMessage)
    modifies m.interaction
    ensures m.interaction.calls == old(m.interaction.calls) + [CallDeleteReply]
    ensures m.interaction.replied == old(m.interaction.replied)
    ensures m.interaction.deferred == old(m.interaction.deferred)
  {
    m.interaction.DeleteReply();
  }

  /** The two pieces of the warn example. */
  lemma WarnPieces(user: SlashOption, reason: SlashOption, supplied: seq<Supplied>)
    requires user == SlashOption("user", Some(true)) && reason == SlashOption("reason", Some(false))
    requires supplied == [Supplied("user", Some("42"))]
    ensures Piece(user, supplied) == " user: 42" && Piece(reason, supplied) == " reason: undefined"
  {
    assert Find(supplied, "user") == Some(supplied[0]);
    assert Find(supplied, "reason") == None by {
      assert supplied[1..] == [];
    }
  }

  /** The warn example's content, spelled out. */
  lemma WarnText(rendered: string)
    requires rendered == " user: 42" + " reason: undefined"
    ensures "/" + "warn" + rendered == "/warn user: 42 reason: undefined"
  {
  }

  /** The warn example: a required `user` given as 42 and an optional `reason` left out. */
  lemma WarnExample()
    ensures var options := [SlashOption("user", Some(true)), SlashOption("reason", Some(false))];
            var supplied := [Supplied("user", Some("42"))];
            "/" + "warn" + Render(options, supplied) == "/warn user: 42 reason: undefined"
  {
    var user, reason := SlashOption("user", Some(true)), SlashOption("reason", Some(false));
    var supplied := [Supplied("user", Some("42"))];
    WarnPieces(user, reason, supplied);
    assert Render([user], supplied) == Piece(user, supplied) by {
      assert [user][1..] == [];
    }
    RenderSnoc([user], reason, supplied);
    assert [user] + [reason] == [user, reason];
    WarnText(Render([user, reason], supplied));
  }
}
