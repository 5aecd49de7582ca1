# Reaction roles, modelled in Dafny

This project models the deterministic core of the reaction-role cog of a chat
bot (`cogs/reactionrole.py`). Moderators attach buttons to a message. Clicking
a button toggles a role on the member who clicked. The attached buttons are
saved to a JSON file and registered again when the bot starts.

The model covers:

- **The button registry file.** `save_config` inserts into a dict from guild
  id text to a dict from message id text to a list of button records.
  `load_config` replays that file into one registered view per message.
  Python dicts keep insertion order, so a dict is modelled as the list of its
  items (`PyDict`). The replay order is therefore part of the model.
- **The button.** Its `custom_id` is `str(role_id)`. The click handler
  removes the role when the member has it and adds it otherwise.
- **The `reaction_role` command.** It parses the message link with
  `split('/')` and two `int()` calls. It chooses the colour from a four-entry
  table that falls back to grey. It rebuilds the message's view from the
  existing components with the new button last, registers the view, saves
  the record and edits the message.
- **The Python built-ins the core leans on:**
  - `str(int)` and `int(str)` (`PyInt`): surrounding whitespace, one sign,
    leading zeros, and single underscores between digits;
  - `str.split` and `str.join` on one character (`PyStr`).

The chat platform is represented by values:

- the member's and the guild's role sets;
- whether a role edit was applied, forbidden or failed;
- a map from (channel id, message id) to the message's component rows, for
  the messages the bot can fetch;
- whether the final message edit succeeded;
- the index `random.choice` returned.

The JSON file is represented by its decoded value, passed in and returned.

Three things the code does not do, and the model does not do either:

- `save_config` only appends a record. It does not check whether the same
  `(guild, message, role)` triple is already saved.
- The file is rewritten in place with no atomic save, and nothing serialises
  two commands that save at the same time.
- `load_config` lets the exception from a malformed file propagate. It does
  not start over with an empty registry.

## Model

| member | source | states |
|---|---|---|
| PyInt.Show | cogs/reactionrole.py:18 | `str(n)` is non-empty, all digits except a leading `-`, and starts with `-` exactly when `n` is negative |
| PyInt.ParseShow | cogs/reactionrole.py:183 | `int(str(n)) == n` for every integer, so a role id survives the trip through `custom_id` |
| PyInt.ShowInjective | cogs/reactionrole.py:125-129 | different ids have different decimal texts, so distinct guild or message ids never share a key of the file |
| PyInt.ParseNeedsDigit | cogs/reactionrole.py:158-159 | `int()` raises on a text with no decimal digit |
| PyInt.ParseDecimal | cogs/reactionrole.py:158-159 | `int()` of any whitespace, an optional `+` or `-`, a run of decimal digits (leading zeros allowed) and any whitespace is the run's decimal value, negated after `-` |
| PyInt.ParseIgnoresUnderscore | cogs/reactionrole.py:158-159 | an underscore between two digits, anywhere in the text, does not change what `int()` returns or whether it raises |
| PyInt.ParseRejectsSpaceBetweenDigits | cogs/reactionrole.py:158-159 | `int()` raises when a whitespace character has a digit somewhere before it and a digit somewhere after it |
| PyInt.ParseRejectsUnderscoreNotBeforeDigit | cogs/reactionrole.py:158-159 | `int()` raises on an underscore that is not followed by a digit |
| PyInt.ParseRejectsUnderscoreNotAfterDigit | cogs/reactionrole.py:158-159 | `int()` raises on an underscore that does not follow a digit |
| PyInt.ParseRejectsDetachedSign | cogs/reactionrole.py:158-159 | `int()` raises on a `+` or `-` that is not followed by a digit |
| PyStr.SplitSpec | cogs/reactionrole.py:157 | `split('/')` gives one more part than there are `/`, no part holds `/`, and joining the parts with `/` gives the link back |
| PyStr.SplitCount | cogs/reactionrole.py:157-158 | the number of parts is the number of `/` plus one |
| PyStr.SplitPartsWithoutSep | cogs/reactionrole.py:157 | no part of `split('/')` contains `/` |
| PyStr.JoinSplit | cogs/reactionrole.py:157 | `'/'.join(s.split('/')) == s` |
| PyStr.SplitJoin | cogs/reactionrole.py:157 | `'/'.join(parts).split('/') == parts` when no part holds `/` |
| PyDict.Get | cogs/reactionrole.py:125 | a lookup finds a value exactly for the keys of the dict, and the value is the one stored with that key |
| PyDict.Set | cogs/reactionrole.py:126 | after `d[k] = v`, `k` maps to `v`, every other key keeps its value, and no item is invented |
| PyDict.SetKeys | cogs/reactionrole.py:129 | assignment keeps the key order, and a new key goes last |
| PyDict.SetTwice | cogs/reactionrole.py:126-131 | assigning a key twice equals assigning it the second value |
| PyDict.SetKeepsUniqueKeys | cogs/reactionrole.py:125-131 | assignment keeps the keys of a dict distinct |
| RoleButtons.CustomIdRoundTrip | cogs/reactionrole.py:18 | reading a button's `custom_id` with `int()` gives its role id |
| RoleButtons.CustomIdsDiffer | cogs/reactionrole.py:18 | buttons for different roles have different `custom_id`s |
| RoleButtons.Toggle | cogs/reactionrole.py:30-39 | the role's membership flips and no other role's membership changes |
| RoleButtons.Callback | cogs/reactionrole.py:21-57 | a click removes a held role or adds a missing one when the edit is applied. A forbidden edit gives the permission error, and a failed edit or a role the guild no longer has gives the generic error. On both errors the roles are unchanged, and the reply says which branch ran |
| RoleButtons.ClickTwiceRestores | cogs/reactionrole.py:30-45 | two applied clicks give the member's roles back, one reply being an assignment and the other a removal |
| ReactionRoleConfig.Saved | cogs/reactionrole.py:125-131 | after a save the guild and message entries exist, and the message's list is the old list (empty when absent) plus the button. Other guilds and other messages of the guild are untouched, and a new key goes last at both levels |
| ReactionRoleConfig.SaveConfig | cogs/reactionrole.py:115-134 | the step-by-step in-place update writes exactly `Saved`, and other guild ids and message ids keep their entries |
| ReactionRoleConfig.SavedValid | cogs/reactionrole.py:125-131 | saving keeps both levels of the file free of repeated keys |
| ReactionRoleConfig.SavedTwiceKeepsBoth | cogs/reactionrole.py:131 | there is no duplicate check: saving one record twice leaves it in the list twice |
| ReactionRoleConfig.ReplayButtons | cogs/reactionrole.py:106-112 | one button per saved record in saved order, with the saved role id and colour name, and the default emoji for a record without one |
| ReactionRoleConfig.BuildView | cogs/reactionrole.py:105-112 | the inner loop builds exactly the replayed view of a message's records |
| ReactionRoleConfig.ReplayMessagesSpec | cogs/reactionrole.py:104-113 | a guild's messages replay exactly when every key is an integer. Each message is then registered under that integer with its replayed view; otherwise the error names the first key that is not one |
| ReactionRoleConfig.RegistrationsOk | cogs/reactionrole.py:103-113 | the whole file replays exactly when every message key of every guild is an integer, for colour names the style lookup accepts and at most 25 records per message (neither modelled) |
| ReactionRoleConfig.ReplayMessagesErrPersists | cogs/reactionrole.py:113 | once a prefix of a guild's messages fails, the whole guild fails with the same error |
| ReactionRoleConfig.RegistrationsErrPersists | cogs/reactionrole.py:103 | once a prefix of the guilds fails, the whole replay fails with the same error |
| ReactionRoleConfig.ReplayFailsAt | cogs/reactionrole.py:113 | the replay stops with the error of the first message key that is not an integer |
| ReactionRoleConfig.LoadConfig | cogs/reactionrole.py:96-113 | the nested loops register every message's view in file order when all keys are integers. Otherwise they raise the replay's error, and the views registered before the bad key stay registered. Colour names the style lookup rejects and more than 25 records per message are not modelled |
| ReactionRoleConfig.SavedReplayable | cogs/reactionrole.py:125-131 | saving under an integer message key keeps every key of the file readable at start-up |
| ReactionRoleConfig.RegistrationsInclude | cogs/reactionrole.py:103-113 | every registration of one guild is among the registrations of the file |
| ReactionRoleConfig.SaveThenReplay | cogs/reactionrole.py:96-134 | a saved button is replayed at the next start: the file still loads, and the message is registered with its earlier buttons followed by the new one. This holds for colour names the style lookup accepts and at most 25 records per message (neither modelled) |
| ReactionRoleCommand.ParseLink | cogs/reactionrole.py:157-159 | reading a link fails for lack of segments exactly when it has no `/` |
| ReactionRoleCommand.ParseLinkOfJoin | cogs/reactionrole.py:157-159 | a link ending in `/<channel id>/<message id>` reads back as those two ids, whatever comes before |
| ReactionRoleCommand.ParseLinkRejectsChannelSegment | cogs/reactionrole.py:158 | a link whose second-last segment is not an integer is refused with the channel-id error, whatever the last segment is |
| ReactionRoleCommand.ParseLinkRejectsLastSegment | cogs/reactionrole.py:159 | a link whose last segment is not an integer is refused |
| ReactionRoleCommand.ResolveColour | cogs/reactionrole.py:166-172 | a known colour name gives the style listed under it, and any other text gives grey |
| ReactionRoleCommand.StyleNameResolves | cogs/reactionrole.py:166-172 | every style is in the table, and its name resolves back to it |
| ReactionRoleCommand.ChooseColour | cogs/reactionrole.py:164-165 | a given colour is kept as typed, and a missing one becomes one of the four known names |
| ReactionRoleCommand.ItemButtonOfRendered | cogs/reactionrole.py:182-184 | a button the cog rendered reads back from its component as the same button: the role id survives `int(custom_id)`, and the emoji and style are kept |
| ReactionRoleCommand.ItemButtonOfOther | cogs/reactionrole.py:183-184 | a component that is not a button never reads back as one: it fails on a non-integer `custom_id`, and otherwise on its missing emoji |
| ReactionRoleCommand.ExistingButtonsSpec | cogs/reactionrole.py:179-184 | the rebuild succeeds exactly when every component is a button with an integer `custom_id`, and then gives one button per component, in order, with that role id, the emoji text and the style. Otherwise it fails with the error of the first component that cannot be read back |
| ReactionRoleCommand.ExistingButtonsErrPersists | cogs/reactionrole.py:183 | one bad component makes the whole rebuild fail |
| ReactionRoleCommand.ExistingButtonsOfRendered | cogs/reactionrole.py:179-185 | reading back the components of a view the cog rendered recreates that view |
| ReactionRoleCommand.RebuildView | cogs/reactionrole.py:178-185 | the nested loops give the existing buttons in order with the new button appended last, or fail with the error of the first component that cannot be read back |
| ReactionRoleCommand.ReactionRole | cogs/reactionrole.py:139-209 | a bad link, a message that cannot be fetched or an unreadable component leaves the file alone and registers nothing. Otherwise the rebuilt view is registered under the message id, and the record with the colour as typed or picked is saved. The reply depends only on the edit, and a success always means a registration and a changed file |

## Left out

- Reading and writing the JSON file and `os.path.exists` are I/O. The decoded file is passed in and the new content returned, and an absent file is the empty dict.
- A record missing `role_id` or `colour` (a `KeyError` at load) is not modelled, because records always carry both. Only `emoji` may be absent.
- ReactionRoleConfig.ReplayButtons: keeps the saved colour name. `getattr(discord.ButtonStyle, ...)` belongs to the chat library and is not modelled. So a replayed button's style is the saved text, and an unknown saved name, which that call would reject, is not flagged.
- Discord calls are represented by their outcomes:
  - `guild.get_role`, by the guild's role set;
  - `add_roles` and `remove_roles`, by `RoleEdit`;
  - `get_channel` and `fetch_message`, by the map of fetchable messages;
  - `message.edit`, by a boolean;
  - `bot.add_view`, by the returned registrations.
- The replies' embed text and formatting are presentation only. The replies are a datatype.
- The aiohttp session and the shutdown and disconnect listeners are resource plumbing.
- `random.choice` is a parameter: the index it returned.
- The library's limit of 25 items per view, and its checks on duplicate `custom_id`s, are library code that is not part of this model.
- ReactionRoleConfig.SaveThenReplay, ReactionRoleConfig.RegistrationsOk and ReactionRoleConfig.LoadConfig: promise that the file loads whenever every message key is an integer. That holds only because two library checks are not modelled. First, `getattr(discord.ButtonStyle, button["colour"])` rejects names the command saves as typed, such as `"blue"`, which the command itself accepts as grey. Second, adding a 26th button to a view raises, and a record is saved even when the message edit fails. In the code either case raises at start-up: no later message is registered, and the exception leaves the cog's constructor.
- ReactionRoleCommand.RebuildView: the 25-item limit also applies here. A message that already carries 25 components makes the code raise when the new button is added, before anything is saved. The model instead returns the longer view.
- Components are a button or any other component (`OtherItem`), such as a select menu. The other kind carries only its `custom_id`, which is all the code reads from it before failing. A component's emoji is modelled as its text, or `None`. `str()` of a custom emoji is that text.
- ReactionRoleCommand.ReactionRole: assumes the command runs inside a guild. `interaction.guild` being `None` is not modelled.
- Concurrency between commands and clicks is not modelled, as the code has no coordination.
- PyInt.Parse: covers ASCII digits and the ASCII whitespace `int()` strips (space, tab, line feed, vertical tab, form feed, carriage return) only. Python's `int()` also accepts non-ASCII Unicode decimal digits and whitespace, and refuses texts over 4300 digits. Neither affects ids the cog writes itself.
- `ReactionRoleView` only adds the given buttons in order, which is what the registrations hold, so it has no member of its own.
