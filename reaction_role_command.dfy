/** The `reaction_role` slash command of the reaction-role cog: parse the
    message link, pick the button colour, rebuild the message's view with
    the new button last, register it and save it. The chat platform is
    represented by the messages the bot can fetch (their component rows)
    and by whether editing the message succeeds. */
module ReactionRoleCommand {
  import opened Wrappers
  import PyInt
  import PyStr
  import opened RoleButtons
  import opened ReactionRoleConfig

  // Message links

  /** Why a message link was refused: too few `/`-separated segments
      (`parts[-2]` raises `IndexError`), or a segment that is not an integer. */
  datatype LinkError = TooFewSegments | ChannelIdNotInt | MessageIdNotInt

  /** The channel id and message id of a message link: the second-last and
      last `/`-separated segments, each read with `int()`. Only a link with
      no `/` at all has too few segments. */
  function ParseLink(link: string): (r: Result<(int, int), LinkError>)
    ensures r == Err(TooFewSegments) <==> '/' !in link
  {
    PyStr.SplitCount(link, '/');
    var parts := PyStr.Split(link, '/');
    if |parts| < 2 then Err(TooFewSegments)
    else
      match PyInt.Parse(parts[|parts| - 2])
      case None => Err(ChannelIdNotInt)
      case Some(channelId) =>
        match PyInt.Parse(parts[|parts| - 1])
        case None => Err(MessageIdNotInt)
        case Some(messageId) => Ok((channelId, messageId))
  }

  /** A link whose last two segments are the decimal channel and message ids,
      after any prefix of segments, parses back to those ids. */
  lemma ParseLinkOfJoin(prefix: seq<string>, channelId: int, messageId: int)
    requires forall i :: 0 <= i < |prefix| ==> '/' !in prefix[i]
    ensures ParseLink(PyStr.Join(prefix + [PyInt.Show(channelId), PyInt.Show(messageId)], '/'))
            == Ok((channelId, messageId))
  {
    var parts := prefix + [PyInt.Show(channelId), PyInt.Show(messageId)];
    IdSegments(prefix, channelId, messageId);
    PyStr.SplitJoin(parts, '/');
    PyInt.ParseShow(channelId);
    PyInt.ParseShow(messageId);
    ParseLinkOfParts(PyStr.Join(parts, '/'), parts);
  }

  /** Decimal ids never contain `/`, so they stay whole segments. */
  lemma IdSegments(prefix: seq<string>, channelId: int, messageId: int)
    requires forall i :: 0 <= i < |prefix| ==> '/' !in prefix[i]
    ensures var parts := prefix + [PyInt.Show(channelId), PyInt.Show(messageId)];
      forall i :: 0 <= i < |parts| ==> '/' !in parts[i]
  {
    PyInt.ShowHasOnly(channelId, '/');
    PyInt.ShowHasOnly(messageId, '/');
  }

  /** A link is read from its last two segments. */
  lemma ParseLinkOfParts(link: string, parts: seq<string>)
    requires PyStr.Split(link, '/') == parts && |parts| >= 2
    requires PyInt.Parse(parts[|parts| - 2]).Some? && PyInt.Parse(parts[|parts| - 1]).Some?
    ensures ParseLink(link) == Ok((PyInt.Parse(parts[|parts| - 2]).value, PyInt.Parse(parts[|parts| - 1]).value))
  {
  }

  /** A link whose last segment is not an integer is refused, whatever comes before it. */
  lemma ParseLinkRejectsLastSegment(prefix: seq<string>, last: string)
    requires |prefix| > 0 && forall i :: 0 <= i < |prefix| ==> '/' !in prefix[i]
    requires '/' !in last
    requires PyInt.Parse(last).None?
    ensures ParseLink(PyStr.Join(prefix + [last], '/')).Err?
  {
    var parts := prefix + [last];
    assert forall i :: 0 <= i < |parts| ==> '/' !in parts[i];
    PyStr.SplitJoin(parts, '/');
  }

  /** A link whose second-last segment is not an integer is refused for its
      channel id, whatever the last segment holds. */
  lemma ParseLinkRejectsChannelSegment(prefix: seq<string>, channel: string, last: string)
    requires forall i :: 0 <= i < |prefix| ==> '/' !in prefix[i]
    requires '/' !in channel && '/' !in last
    requires PyInt.Parse(channel).None?
    ensures ParseLink(PyStr.Join(prefix + [channel, last], '/')) == Err(ChannelIdNotInt)
  {
    var parts := prefix + [channel, last];
    assert forall i :: 0 <= i < |parts| ==> '/' !in parts[i];
    PyStr.SplitJoin(parts, '/');
  }

  // Button colours

  /** The colour names the command knows, in the order `random.choice` is
      given them. */
  const ColourNames: seq<string> := ["red", "green", "blurple", "grey"]

  /** The outcome of `random.choice` over `ColourNames`: an index into it. */
  type ColourPick = i: int | 0 <= i < 4

  /** The name each style is listed under in the colour table. */
  function StyleName(style: ButtonStyle): string {
    match style
    case Red => "red"
    case Green => "green"
    case Blurple => "blurple"
    case Grey => "grey"
  }

  /** The colour table with grey as the default: a known name gives the style
      listed under it, any other text gives grey. */
  function ResolveColour(colour: string): (style: ButtonStyle)
    ensures colour in ColourNames ==> StyleName(style) == colour
    ensures colour !in ColourNames ==> style == Grey
  {
    var colourMap := map["red" := Red, "green" := Green, "blurple" := Blurple, "grey" := Grey];
    if colour in colourMap then colourMap[colour] else Grey
  }

  /** Every style is listed, and its name resolves back to it. */
  lemma StyleNameResolves(style: ButtonStyle)
    ensures StyleName(style) in ColourNames
    ensures ResolveColour(StyleName(style)) == style
  {
  }

  /** The colour name the command goes on with: the one given, or a randomly
      picked known name when none is given. */
  function ChooseColour(colour: Option<string>, pick: ColourPick): (name: string)
    ensures colour.None? ==> name in ColourNames
    ensures colour.Some? ==> name == colour.value
  {
    match colour
    case Some(c) => c
    case None => ColourNames[pick]
  }

  // Rebuilding the view

  /** A component already on the message. A button has a `custom_id` (a link
      button has none), an emoji (absent on a text-only button) and a style.
      Any other component, such as a select menu, has a `custom_id` but
      neither an emoji nor a style. */
  datatype Item =
    | ButtonItem(customId: Option<string>, emoji: Option<string>, style: ButtonStyle)
    | OtherItem(customId: Option<string>)

  type ActionRow = seq<Item>

  /** `str(item.emoji)`: the emoji's text, or `"None"` when it has none. */
  function EmojiText(emoji: Option<string>): string {
    match emoji
    case Some(e) => e
    case None => "None"
  }

  /** The message components all rows together, row after row. */
  function Flatten(rows: seq<ActionRow>): seq<Item> {
    if rows == [] then [] else Flatten(rows[..|rows| - 1]) + rows[|rows| - 1]
  }

  /** Why the command failed after parsing the link. */
  datatype CommandError =
    | BadLink(reason: LinkError)
    | MessageNotFound
    | CustomIdNotInt
    | NotAButton
    | EditFailed

  /** A button component whose `custom_id` reads back as a role id. */
  predicate HasRoleId(item: Item) {
    item.ButtonItem? && item.customId.Some? && PyInt.Parse(item.customId.value).Some?
  }

  /** The button recreated from one component: the role id read from its
      `custom_id`, its emoji text and its style. The `custom_id` is read
      first, so a missing or non-integer one fails on it whatever the
      component is; a component that is not a button fails next, on its
      missing emoji. */
  function ItemButton(item: Item): (r: Result<RoleButton<ButtonStyle>, CommandError>)
    ensures r.Ok? <==> HasRoleId(item)
    ensures r.Ok? ==> (Some(r.value.roleId) == PyInt.Parse(item.customId.value)
      && r.value.emoji == EmojiText(item.emoji) && r.value.style == item.style)
  {
    if item.customId.None? || PyInt.Parse(item.customId.value).None? then Err(CustomIdNotInt)
    else
      match item
      case OtherItem(_) => Err(NotAButton)
      case ButtonItem(customId, emoji, style) =>
        Ok(RoleButton(PyInt.Parse(customId.value).value, EmojiText(emoji), style))
  }

  /** A component that is not a button is never read back as one: it fails on
      its `custom_id` when that is not an integer, and on the missing emoji
      otherwise. */
  lemma ItemButtonOfOther(customId: Option<string>)
    ensures ItemButton(OtherItem(customId)).Err?
    ensures ItemButton(OtherItem(customId)).error ==
      if customId.Some? && PyInt.Parse(customId.value).Some? then NotAButton else CustomIdNotInt
  {
  }

  /** The buttons recreated from the message's components, in order; the
      first component that cannot be read back makes the command fail. */
  function ExistingButtons(items: seq<Item>): Result<seq<RoleButton<ButtonStyle>>, CommandError>
  {
    if items == [] then Ok([])
    else
      match ExistingButtons(items[..|items| - 1])
      case Err(e) => Err(e)
      case Ok(view) =>
        match ItemButton(items[|items| - 1])
        case Err(e) => Err(e)
        case Ok(b) => Ok(view + [b])
  }

  /** The rebuild succeeds exactly when every component is a button with an
      integer `custom_id`, and then gives one button per component, in order,
      with the role id read from that `custom_id`, the emoji text and the
      style. Otherwise it fails with the error of the first component that
      cannot be read back. */
  lemma {:induction false} ExistingButtonsSpec(items: seq<Item>)
    ensures ExistingButtons(items).Ok? <==> forall k :: 0 <= k < |items| ==> HasRoleId(items[k])
    ensures ExistingButtons(items).Err? ==>
      exists k :: (0 <= k < |items| && (forall k' :: 0 <= k' < k ==> HasRoleId(items[k']))
                   && ItemButton(items[k]) == Err(ExistingButtons(items).error))
    ensures ExistingButtons(items).Ok? ==> |ExistingButtons(items).value| == |items| && forall k :: 0 <= k < |items| ==>
      && items[k].ButtonItem?
      && Some(ExistingButtons(items).value[k].roleId) == PyInt.Parse(items[k].customId.value)
      && ExistingButtons(items).value[k].emoji == EmojiText(items[k].emoji)
      && ExistingButtons(items).value[k].style == items[k].style
    decreases |items|
  {
    if items != [] {
      var init := items[..|items| - 1];
      assert forall k :: 0 <= k < |init| ==> init[k] == items[k];
      ExistingButtonsSpec(init);
    }
  }

  /** Once a prefix of the components fails, all of them fail the same way. */
  lemma {:induction false} ExistingButtonsErrPersists(items: seq<Item>, n: nat)
    requires n <= |items|
    requires ExistingButtons(items[..n]).Err?
    ensures ExistingButtons(items) == ExistingButtons(items[..n])
    decreases |items|
  {
    if n < |items| {
      var init := items[..|items| - 1];
      assert init[..n] == items[..n];
      ExistingButtonsErrPersists(init, n);
    } else {
      assert items[..n] == items;
    }
  }

  /** How a role button shows on the message once the view is applied. */
  function Rendered(b: RoleButton<ButtonStyle>): Item {
    ButtonItem(Some(CustomId(b)), Some(b.emoji), b.style)
  }

  /** A rendered button reads back as itself: its role id survives the trip
      through `custom_id`, and its emoji and style are kept. */
  lemma ItemButtonOfRendered(b: RoleButton<ButtonStyle>)
    ensures ItemButton(Rendered(b)) == Ok(b)
  {
    CustomIdRoundTrip(b);
  }

  /** Reading back the components of a view recreates that view: every role
      id survives the trip through `custom_id`. */
  lemma {:induction false} ExistingButtonsOfRendered(items: seq<Item>, view: seq<RoleButton<ButtonStyle>>)
    requires |items| == |view|
    requires forall k :: 0 <= k < |view| ==> items[k] == Rendered(view[k])
    ensures ExistingButtons(items) == Ok(view)
    decreases |items|
  {
    if items != [] {
      var n := |items| - 1;
      ExistingButtonsOfRendered(items[..n], view[..n]);
      ItemButtonOfRendered(view[n]);
      assert items == items[..n] + [items[n]];
      ExistingButtonsStep(items[..n], items[n]);
      assert view == view[..n] + [view[n]];
    }
  }

  /** One more component adds its button, or makes the rebuild fail. */
  lemma ExistingButtonsStep(items: seq<Item>, item: Item)
    requires ExistingButtons(items).Ok?
    ensures ExistingButtons(items + [item]) ==
      match ItemButton(item)
      case Err(e) => Err(e)
      case Ok(b) => Ok(ExistingButtons(items).value + [b])
  {
    assert (items + [item])[..|items|] == items;
  }

  /** The view rebuild of the command: a fresh view gets a button for every
      component of every row of the message, then the new button. */
  method RebuildView(rows: seq<ActionRow>, button: RoleButton<ButtonStyle>)
    returns (r: Result<seq<RoleButton<ButtonStyle>>, CommandError>)
    ensures ExistingButtons(Flatten(rows)).Err? ==> r == Err(ExistingButtons(Flatten(rows)).error)
    ensures ExistingButtons(Flatten(rows)).Ok? ==> r == Ok(ExistingButtons(Flatten(rows)).value + [button])
  {
    var view: seq<RoleButton<ButtonStyle>> := [];
    var i := 0;
    while i < |rows|
      invariant 0 <= i <= |rows|
      invariant ExistingButtons(Flatten(rows[..i])) == Ok(view)
    {
      var row := rows[i];
      ghost var done := Flatten(rows[..i]);
      var j := 0;
      RowPrefix(rows, i, 0);
      while j < |row|
        invariant 0 <= j <= |row|
        invariant ExistingButtons(done + row[..j]) == Ok(view)
      {
        var b := ItemButton(row[j]);
        RowStep(done, row, j);
        if b.Err? {
          RebuildFailsAt(rows, i, j);
          return Err(b.error);
        }
        view := view + [b.value];
        j := j + 1;
      }
      RowPrefix(rows, i, j);
      i := i + 1;
    }
    assert rows[..i] == rows;
    r := Ok(view + [button]);
  }

  /** The first `j` components of row `i` extend the components before that
      row; all of the row's components make up the first `i + 1` rows. */
  lemma RowPrefix(rows: seq<ActionRow>, i: nat, j: nat)
    requires i < |rows| && j <= |rows[i]|
    ensures Flatten(rows[..i]) + rows[i][..0] == Flatten(rows[..i])
    ensures j == |rows[i]| ==> Flatten(rows[..i]) + rows[i][..j] == Flatten(rows[..i + 1])
  {
    assert rows[..i + 1][..i] == rows[..i];
    assert rows[i][..|rows[i]|] == rows[i];
  }

  /** Reading component `j` of a row after the components `before` it. */
  lemma RowStep(before: seq<Item>, row: ActionRow, j: nat)
    requires j < |row|
    requires ExistingButtons(before + row[..j]).Ok?
    ensures ExistingButtons(before + row[..j + 1]) ==
      match ItemButton(row[j])
      case Err(e) => Err(e)
      case Ok(b) => Ok(ExistingButtons(before + row[..j]).value + [b])
  {
    assert row[..j + 1] == row[..j] + [row[j]];
    assert before + row[..j + 1] == (before + row[..j]) + [row[j]];
    ExistingButtonsStep(before + row[..j], row[j]);
  }

  /** The rebuild fails, with the same error, as soon as one component cannot
      be read back. */
  lemma RebuildFailsAt(rows: seq<ActionRow>, i: nat, j: nat)
    requires i < |rows| && j < |rows[i]|
    requires ExistingButtons(Flatten(rows[..i]) + rows[i][..j + 1]).Err?
    ensures ExistingButtons(Flatten(rows)) == ExistingButtons(Flatten(rows[..i]) + rows[i][..j + 1])
  {
    var items := Flatten(rows[..i]) + rows[i][..j + 1];
    var rest := FlattenPrefix(rows, i);
    assert Flatten(rows) == Flatten(rows[..i]) + rows[i] + rest;
    assert Flatten(rows)[..|items|] == items;
    ExistingButtonsErrPersists(Flatten(rows), |items|);
  }

  /** The components of the first `i + 1` rows come first among all of them. */
  lemma {:induction false} FlattenPrefix(rows: seq<ActionRow>, i: nat) returns (rest: seq<Item>)
    requires i < |rows|
    ensures Flatten(rows) == Flatten(rows[..i]) + rows[i] + rest
    decreases |rows|
  {
    assert rows[..i + 1][..i] == rows[..i];
    if i == |rows| - 1 {
      rest := [];
    } else {
      var init := rows[..|rows| - 1];
      assert init[..i] == rows[..i] && init[i] == rows[i];
      var r := FlattenPrefix(init, i);
      rest := r + rows[|rows| - 1];
    }
  }

  // The command

  /** What one run of the command leaves behind: the file's new content, the
      view registered for the message, and the reply (an error, or success). */
  datatype Outcome = Outcome(config: Config, registered: Option<Registration<ButtonStyle>>, reply: Result<(), CommandError>)

  /** `reaction_role`. `messages` holds, for each (channel id, message id) the
      bot can fetch, the message's component rows; `pick` is what
      `random.choice` returned; `editSucceeds` is whether editing the message
      worked. The saved colour is the name as typed or picked, not the
      resolved style; the save happens before the edit, so a failed edit
      still leaves the button saved and registered. */
  method ReactionRole(config: Config, guildId: int, messages: map<(int, int), seq<ActionRow>>,
                      link: string, roleId: int, emoji: string, colour: Option<string>,
                      pick: ColourPick, editSucceeds: bool)
    returns (out: Outcome)
    ensures ParseLink(link).Err? ==> out == Outcome(config, None, Err(BadLink(ParseLink(link).error)))
    ensures ParseLink(link).Ok? && ParseLink(link).value !in messages ==>
      out == Outcome(config, None, Err(MessageNotFound))
    ensures ParseLink(link).Ok? && ParseLink(link).value in messages
            && ExistingButtons(Flatten(messages[ParseLink(link).value])).Err? ==>
      out == Outcome(config, None, Err(ExistingButtons(Flatten(messages[ParseLink(link).value])).error))
    ensures ParseLink(link).Ok? && ParseLink(link).value in messages
            && ExistingButtons(Flatten(messages[ParseLink(link).value])).Ok? ==>
      var messageId := ParseLink(link).value.1;
      var name := ChooseColour(colour, pick);
      var button := RoleButton(roleId, emoji, ResolveColour(name));
      && out.registered == Some(Registration(messageId,
           ExistingButtons(Flatten(messages[ParseLink(link).value])).value + [button]))
      && out.config == Saved(config, Key(guildId), Key(messageId), ButtonRecord(roleId, Some(emoji), name))
      && out.reply == if editSucceeds then Ok(()) else Err(EditFailed)
    ensures out.reply.Ok? ==> out.registered.Some? && out.config != config
  {
    var parsed := ParseLink(link);
    if parsed.Err? {
      return Outcome(config, None, Err(BadLink(parsed.error)));
    }
    var (channelId, messageId) := parsed.value;
    if (channelId, messageId) !in messages {
      return Outcome(config, None, Err(MessageNotFound));
    }
    var rows := messages[(channelId, messageId)];
    var name := ChooseColour(colour, pick);
    var style := ResolveColour(name);
    var button := RoleButton(roleId, emoji, style);
    var view := RebuildView(rows, button);
    if view.Err? {
      return Outcome(config, None, Err(view.error));
    }
    var registered := Registration(messageId, view.value);
    var record := ButtonRecord(roleId, Some(emoji), name);
    var written := SaveConfig(config, guildId, messageId, record);
    assert PyDict.Get(Messages(written, Key(guildId)), Key(messageId)).Some?;
    assert |Stored(written, Key(guildId), Key(messageId))| != |Stored(config, Key(guildId), Key(messageId))|;
    out := Outcome(written, Some(registered), if editSucceeds then Ok(()) else Err(EditFailed));
  }
}
