# Akairo response controller, interaction normaliser and owner checks — a Dafny model

This project models three pieces of the discord-akairo command framework:

- **`CommandUtil`**, the per-invocation response controller. It remembers the last response (`lastResponse`) and whether the next `send` may edit it (`shouldEdit`). It can also keep an id-keyed store of the invocation's messages (`messages`, present only when the handler's `storeMessages` is on). It decides whether a response edits the previous one, is sent as a new message, or goes through the interaction's `reply`/`editReply`/`fetchReply` requests. Only the HEAD side of the merge conflict in `CommandUtil.js` is modelled (lines 14-219). The upstream side's pure `transformOptions` is modelled as a separate function.
- **`AkairoMessage`**, the interaction normaliser. It copies the interaction's fields. It builds the text content `"/" + commandName`, then appends `" name: value"` for every option the command declares, in declaration order.
- **`isOwner` / `isSuperUser`** of `AkairoClient`, and the constructor defaults of `ownerID` and `superUserID`.

Files:

- `Common.dfy`: shared datatypes: `Option`, `Result`, message entities, send options, and the requests made on an interaction.
- `Client.dfy`: owner and superuser checks.
- `Interactions.dfy`: the interaction handle, `AkairoMessage` and its constructor, and the rendering lemmas.
- `Responses.dfy`: the controller's decisions as functions of its state (`SendStep`, `SendNewStep`, `ReplyOptions`, `StoreAll`, …), with lemmas about sequences of operations.
- `CommandUtils.dfy`: the `CommandUtil` class. Its methods change the fields in place and are proved to follow the Responses functions.

How the platform library (discord.js) is modelled:

- Every request to it is recorded in a log. `CommandUtil.calls` logs channel sends and message edits and deletes. `Interaction.calls` logs `reply`, `editReply`, `fetchReply` and `deleteReply`.
- What the library answers is a parameter of the operation. `sent` is what `channel.send` returns. `fetched` is what `fetchReply` returns.
- The interaction's `deferred` and `replied` flags are fields of the `Interaction` class. `reply` sets `replied`.
- Deleting a message marks that entity `deleted`.

Where the JavaScript would raise a TypeError, the model returns an explicit `Threw(fault)` outcome and leaves the state as the code leaves it. This covers reading a property of a null `lastResponse`, a null channel, or an empty array of sent messages.

Some behaviours of the controller that are easy to miss:

- An attachment-bearing response makes the controller non-editable. The next attachment-free new message makes it editable again (`SendNewStep`).
- On an interaction, `send` takes the `editReply` path when `lastResponse` is set, and also when the interaction was replied to or deferred.
- `edit` without a last response fails with a TypeError, like any property read on null.
- The message store belongs to each controller. It is not shared between invocations.

## Model

| member | source | states |
|---|---|---|
| Client.NewClient | src/struct/AkairoClient.js:24-38 | an omitted `ownerID` or `superUserID` becomes the empty string; a given one is kept |
| Client.IsOwner | src/struct/AkairoClient.js:52-57 | an unresolved (null) id is never an owner, and an id equal to a string `ownerID` always is |
| Client.IsOwnerCases | src/struct/AkairoClient.js:52-57 | `isOwner` is list membership for an array `ownerID` and equality for a string; an unresolved (null) id is never an owner |
| Client.IsSuperUser | src/struct/AkairoClient.js:63-68 | every id matching `superUserID` passes; any other id that passes is an owner, or, with an array `superUserID` and a string `ownerID`, a substring of the owner id |
| Client.ScalarSuperUser | src/struct/AkairoClient.js:63-68 | with scalar `superUserID` and `ownerID`, a superuser is exactly an id equal to one of the two |
| Client.ListSuperUser | src/struct/AkairoClient.js:63-68 | with array `superUserID` and `ownerID`, a superuser is exactly an id in one of the two lists |
| Client.Includes | src/struct/AkairoClient.js:66 | `String.prototype.includes`: a prefix is found, and a found needle is never longer than the string |
| Client.IncludesSlice | src/struct/AkairoClient.js:66 | `String.prototype.includes` finds every slice of the string |
| Client.IncludesIsSlice | src/struct/AkairoClient.js:66 | whatever `String.prototype.includes` finds occurs in the string as a slice |
| Client.StringOwnerSubstring | src/struct/AkairoClient.js:65-66 | with array `superUserID` and string `ownerID`, every substring of the owner id passes `isSuperUser` |
| Client.StringOwnerIff | src/struct/AkairoClient.js:63-66 | with array `superUserID` and string `ownerID`, a superuser is exactly an id in the list or a substring of the owner id |
| Client.MixedListOwner | src/struct/AkairoClient.js:63-67 | with scalar `superUserID` and array `ownerID`, a superuser is exactly the `superUserID` id; no other owner passes |
| Client.OwnerIsSuperUser | src/struct/AkairoClient.js:52-68 | every owner is a superuser unless `superUserID` is scalar while `ownerID` is an array |
| Client.SubstringGrantsSuperUser | src/struct/AkairoClient.js:66 | as written, id "34" is a superuser of owner "123456" without being owner or listed |
| Client.OwnerListExcluded | src/struct/AkairoClient.js:67 | as written, owner "1" listed in `ownerID` ["1"] is not a superuser when `superUserID` is the scalar "2": an owner other than `superUserID` fails |
| Client.IsSuperUserIntended | src/struct/AkairoClient.js:63-68 | corrected superuser test: it accepts exactly the owners and the ids matching `superUserID`, so an unresolved id never passes |
| Client.SubstringRejectedWhenIntended | src/struct/AkairoClient.js:66 | the corrected test rejects the fragment "34" of owner "123456" that the written test accepts |
| Client.IntendedAgreesOnSameShape | src/struct/AkairoClient.js:63-68 | the corrected test equals the written one whenever both ids have the same shape |
| Interactions.Find | src/util/AkairoMessage.js:117 | the option lookup returns a supplied option with the asked name, and nothing exactly when none has that name |
| Interactions.FindFirst | src/util/AkairoMessage.js:117 | when several supplied options share the name, the lookup returns the first of them |
| Interactions.GetOption | src/util/AkairoMessage.js:117 | `options.get(name, required)` fails exactly when the option is required and absent; otherwise it returns the lookup |
| Interactions.NewAkairoMessage | src/util/AkairoMessage.js:41-120 | construction succeeds iff no required declared option is missing, failing on the first missing one; content is "/" + commandName + the declared options rendered in order; author, channel, guild, id, member, createdAt, createdTimestamp, interaction, client and replied are copied; util is `{parsed: {slash}}` |
| Interactions.Render | src/util/AkairoMessage.js:115-119 | the appended text is empty exactly when the command declares no options, and otherwise starts with a space |
| Interactions.RenderConcat | src/util/AkairoMessage.js:115-119 | rendering two option lists one after the other is the concatenation of their renderings |
| Interactions.RenderSnoc | src/util/AkairoMessage.js:115-119 | one more loop iteration appends exactly `" name: value"` for that option |
| Interactions.RenderLength | src/util/AkairoMessage.js:115-119 | each declared option adds at least three characters |
| Interactions.RenderPrefixGrows | src/util/AkairoMessage.js:115-119 | the content for more options extends the content for fewer, and its length grows with the option count |
| Interactions.AbsentRendersUndefined | src/util/AkairoMessage.js:117 | an option the interaction lacks renders as `" name: undefined"` |
| Interactions.FindDistinct | src/util/AkairoMessage.js:117 | when supplied names are distinct, the lookup finds each supplied option by its name |
| Interactions.RenderIgnoresSupplyOrder | src/util/AkairoMessage.js:115-119 | the content depends on which options were supplied, not on their order |
| Interactions.WarnExample | src/util/AkairoMessage.js:64-119 | a required `user` given as 42 with `reason` left out yields "/warn user: 42 reason: undefined" |
| Interactions.Delete | src/util/AkairoMessage.js:135-137 | `delete` issues one `deleteReply` on the interaction and changes neither interaction flag |
| Responses.HasFiles | src/struct/commands/CommandUtil.js:113-114 | a string never has files; options have files exactly when they carry files or their embed does |
| Responses.StripEphemeral | src/struct/commands/CommandUtil.js:123 | the options lose `ephemeral` and nothing else; a string is unchanged |
| Responses.StripReply | src/struct/commands/CommandUtil.js:137 | the options lose `reply` and nothing else; a string is unchanged |
| Responses.LastOf | src/struct/commands/CommandUtil.js:67-75 | a single message is itself; an array gives its last element; an empty array gives nothing |
| Responses.MessagesOf | src/struct/commands/CommandUtil.js:84-90 | a single message is added alone; an array is added element by element in order |
| Responses.StoreAll | src/struct/commands/CommandUtil.js:84-90 | the store keeps every old key, and the last given message is stored under its id |
| Responses.StoreAllKeys | src/struct/commands/CommandUtil.js:82-94 | after adding, the store's ids are its old ids plus the id of every given message |
| Responses.StoreAllLatest | src/struct/commands/CommandUtil.js:82-94 | each message is stored under its id unless a later message has the same id, which overwrites it |
| Responses.StoreAllUntouched | src/struct/commands/CommandUtil.js:82-94 | entries under other ids are unchanged |
| Responses.AsObject | src/struct/commands/CommandUtil.js:174-179 | a string becomes `{content}`; an options object is used as it is |
| Responses.ReplyOptions | src/struct/commands/CommandUtil.js:173-192 | `reply = {messageReference: trigger, failIfNotExists: given ?? true}` is added iff the trigger is conventional and not deleted, not in edit mode, and the options are not a MessagePayload; no other field changes |
| Responses.ReplyDefaultsToFailIfNotExists | src/struct/commands/CommandUtil.js:181-190 | on an undeleted conventional trigger outside edit mode, the cross-reference's `failIfNotExists` defaults to true |
| Responses.ReplyOnInteractionIsSend | src/struct/commands/CommandUtil.js:181-192 | on an interaction, `reply` passes the (wrapped) options to `send` unchanged |
| Responses.TransformOptions | src/struct/commands/CommandUtil.js:363-368 | upstream `transformOptions`: empty or missing content becomes null, missing embeds become `[]`, every other field is copied, and the result is a plain object |
| Responses.TransformIdempotent | src/struct/commands/CommandUtil.js:363-368 | transforming twice equals transforming once |
| Responses.SendNewStep | src/struct/commands/CommandUtil.js:161-166 | `sendNew` makes one channel send, records the last sent message, and becomes editable exactly when that message has no attachments; it fails on a null channel or an empty array; the interaction is untouched |
| Responses.SendStep | src/struct/commands/CommandUtil.js:112-154 | conventional `send` never touches the interaction and, when editable, edits the last response keeping all state. Interaction `send` never sends to the channel and leaves `shouldEdit` alone. Once anything was sent or acknowledged, it makes `editReply` then `fetchReply`, and the fetched reply becomes `lastResponse` and the result. Otherwise it makes the one initial `reply`, sets `replied`, and unless ephemeral fetches the reply into `lastResponse` as the result; an ephemeral reply resolves to nothing. Afterwards the next `send` always takes the edit path |
| Responses.SendWithoutLastResponseThrows | src/struct/commands/CommandUtil.js:124-128 | in edit mode, with no files and no last response, conventional `send` fails before any request and changes nothing |
| Responses.SendFallsBackToSendNew | src/struct/commands/CommandUtil.js:122-135 | when the edit condition fails, conventional `send` is `sendNew` on the options without `ephemeral` |
| Responses.SendNewIgnoresShouldEdit | src/struct/commands/CommandUtil.js:161-166 | `sendNew` behaves the same whatever `shouldEdit` was |
| Responses.AttachmentLocks | src/struct/commands/CommandUtil.js:132-135 | after a new response with attachments the controller is not editable, and the next `send` again sends a new message |
| Responses.SendThenEdit | src/struct/commands/CommandUtil.js:122-135 | after a `send` that created an attachment-free, undeleted response, the next file-free `send` edits that response and changes no state |
| Responses.InitialReplyOnce | src/struct/commands/CommandUtil.js:137-152 | on a fresh interaction the first `send` makes one initial reply, and the second makes `editReply` + `fetchReply` and no reply |
| Responses.EphemeralReplyNotRecorded | src/struct/commands/CommandUtil.js:146-151 | an ephemeral initial reply leaves `lastResponse` unset and resolves to nothing |
| CommandUtils.CommandUtil.constructor | src/struct/commands/CommandUtil.js:14-60 | starts not editable, with no last response, no requests, and an empty store iff `storeMessages` (absent otherwise) |
| CommandUtils.CommandUtil.SetLastResponse | src/struct/commands/CommandUtil.js:67-75 | stores and returns the last element of an array, or the single message; nothing else changes |
| CommandUtils.CommandUtil.AddMessage | src/struct/commands/CommandUtil.js:82-94 | with storing on, the store becomes `StoreAll` of the old store and the given messages; with storing off nothing changes; the input is returned |
| CommandUtils.CommandUtil.SetEditable | src/struct/commands/CommandUtil.js:101-104 | sets `shouldEdit` to the given value and returns the same controller; nothing else changes |
| CommandUtils.CommandUtil.Send | src/struct/commands/CommandUtil.js:112-154 | the new state, the result and the requests made are exactly those of `SendStep` |
| CommandUtils.CommandUtil.SendNew | src/struct/commands/CommandUtil.js:161-166 | the new state, the result and the requests made are exactly those of `SendNewStep` |
| CommandUtils.CommandUtil.Reply | src/struct/commands/CommandUtil.js:173-192 | behaves as `send` on the options built by `ReplyOptions` |
| CommandUtils.CommandUtil.Edit | src/struct/commands/CommandUtil.js:201-207 | edits the last response (through its `editReply` on an interaction) and resolves to it; fails without a last response; no state changes |
| CommandUtils.CommandUtil.DeleteLastResponse | src/struct/commands/CommandUtil.js:217 | `lastResponse?.delete()`: nothing and no failure without a last response; otherwise one delete request, and the response is marked deleted |
| CommandUtils.CommandUtil.DeleteAsWritten | src/struct/commands/CommandUtil.js:213-219 | as written: on an interaction it fails because the message has no `deleteReply`; otherwise it is `lastResponse?.delete()` |
| CommandUtils.CommandUtil.Delete | src/struct/commands/CommandUtil.js:213-219 | corrected: on an interaction, one `deleteReply` and no state change; otherwise `lastResponse?.delete()`, a no-op without a last response |
| CommandUtils.MessageReply | src/util/AkairoMessage.js:127-129 | `AkairoMessage.reply` delegates to its controller and, on an interaction, is `send` with a string wrapped as `{content}` |

## Left out

- Actual discord.js behaviour of `channel.send`, `Message.edit`/`delete`, `interaction.reply`/`editReply`/`fetchReply`/`deleteReply` and `users.resolveId`. Requests are logged, and their answers are parameters.
- Transport failures (rejected promises): every request is modelled as succeeding.
- Promises and async ordering. Each operation is atomic, and callers serialise operations on one controller. The initial `reply` is not awaited before `fetchReply` in the code; the model treats the two as sequential.
- `MessagePayload` instances are only a boolean tag on the options.
- The upstream side of the merge conflict, except `transformOptions`. Its `send`, `sendNew`, `reply`, `edit` and its `command.editable` coupling are not modelled.
- The `Client` superclass constructor and `ClientUtil` are foreign library code. The resolved user id is an input (`Option<string>`; null when unresolved).
- `ownerID`/`superUserID` explicitly set to null in the options: only omitted keys (which take the default) are modelled.
- The `handler` and `parsed` fields of `CommandUtil`, and the `client` reference beyond the owner configuration.
- The `handler.storeMessages` setting is read once as a constant; a handler that changes it later is not modelled.
- The insertion order of the message store: it is a map.
- Aliasing of caller objects is not modelled. `delete options.ephemeral` and `delete options.reply` mutate the caller's object, and a stored message and `lastResponse` can be the same entity. The model strips a copy and marks only `lastResponse` deleted.
- Before the handler attaches a controller, `AkairoMessage.util` is the `{parsed: {slash}}` stub, which has no `reply`. `MessageReply` takes the attached controller as a parameter.
- Subcommand (hoisted) options and the platform's option types. Supplied options form one flat list, and each value is given already rendered as text.
- Users, channels, guilds and members are represented by their ids; dates are integers.
- CommandUtils.CommandUtil.Edit: on an interaction the model records `editReply` on the stored response. Whether that entity supports `editReply` is platform behaviour and is not modelled.

## Findings

| source | as written | input that shows it | evidently intended | confidence | as-written member | corrected member |
|---|---|---|---|---|---|---|
| src/struct/commands/CommandUtil.js:214-215 | `delete` on an interaction calls `this.message.deleteReply()`. The message is an `AkairoMessage`, which has `delete` but no `deleteReply` (src/util/AkairoMessage.js:135-137). | any interaction invocation | delete the interaction's reply | medium, not executed | CommandUtils.CommandUtil.DeleteAsWritten | CommandUtils.CommandUtil.Delete |
| src/struct/AkairoClient.js:66 | with an array `superUserID` and a string `ownerID`, `ownerID.includes(id)` is a substring search | ownerID "123456", superUserID [], id "34" | the id equals the owner id | high, not executed | Client.SubstringGrantsSuperUser | Client.IsSuperUserIntended |
| src/struct/AkairoClient.js:67 | with a scalar `superUserID` and an array `ownerID`, `id === this.ownerID` compares a string with an array and never holds | ownerID ["1"], superUserID "2", id "1" | every owner is a superuser | medium, not executed | Client.OwnerListExcluded | Client.IsSuperUserIntended |
