/** The persisted button registry of the reaction-role cog: `save_config`
    and `load_config`. The JSON file is represented by its decoded value, a
    dict from guild id text to a dict from message id text to the list of
    saved buttons; reading and writing the file are left to the caller. */
module ReactionRoleConfig {
  import opened Wrappers
  import PyInt
  import PyDict
  import opened RoleButtons

  /** One saved button, the JSON object with `role_id`, `emoji` and `colour`.
      `colour` is the colour name as the moderator typed it (or as picked at
      random). A hand-edited file may leave `emoji` out. */
  datatype ButtonRecord = ButtonRecord(roleId: int, emoji: Option<string>, colour: string)

  type MessageButtons = PyDict.Dict<string, seq<ButtonRecord>>
  type Config = PyDict.Dict<string, MessageButtons>

  /** The emoji a saved button without one is replayed with. */
  const DefaultEmoji: string := "\U{1F518}"

  /** A guild or message id as a key of the file: `str(id)`. */
  function Key(id: int): string {
    PyInt.Show(id)
  }

  /** The messages saved under a guild key, none when the guild is absent. */
  function Messages(config: Config, guildKey: string): MessageButtons {
    PyDict.Get(config, guildKey).GetOr([])
  }

  /** The buttons saved for a message; an absent entry counts as empty. */
  function Stored(config: Config, guildKey: string, messageKey: string): seq<ButtonRecord> {
    PyDict.Get(Messages(config, guildKey), messageKey).GetOr([])
  }

  /** Both levels of the file are dicts: no key occurs twice in either. */
  predicate ValidConfig(config: Config) {
    && PyDict.UniqueKeys(config)
    && forall i :: 0 <= i < |config| ==> PyDict.UniqueKeys(config[i].1)
  }

  /** The registry after one button is saved for a message: the message's
      list now exists and is the old list (empty when absent) with the button
      appended; every other guild and every other message of the guild is
      untouched; a new guild or message key goes last. No duplicate check. */
  function Saved(config: Config, guildKey: string, messageKey: string, button: ButtonRecord): (r: Config)
    ensures PyDict.Get(r, guildKey).Some?
    ensures PyDict.Get(Messages(r, guildKey), messageKey).Some?
    ensures Stored(r, guildKey, messageKey) == Stored(config, guildKey, messageKey) + [button]
    ensures forall g :: g != guildKey ==> PyDict.Get(r, g) == PyDict.Get(config, g)
    ensures forall m :: m != messageKey ==>
      PyDict.Get(Messages(r, guildKey), m) == PyDict.Get(Messages(config, guildKey), m)
    ensures PyDict.Keys(r) ==
      if guildKey in PyDict.Keys(config) then PyDict.Keys(config) else PyDict.Keys(config) + [guildKey]
    ensures var before := PyDict.Keys(Messages(config, guildKey));
      PyDict.Keys(Messages(r, guildKey)) == if messageKey in before then before else before + [messageKey]
  {
    var messages := Messages(config, guildKey);
    var messages' := PyDict.Set(messages, messageKey, Stored(config, guildKey, messageKey) + [button]);
    PyDict.SetKeys(messages, messageKey, Stored(config, guildKey, messageKey) + [button]);
    PyDict.SetKeys(config, guildKey, messages');
    PyDict.Set(config, guildKey, messages')
  }

  /** `save_config`: the file's dict is updated in place, creating the guild
      entry and the message entry when missing and then appending the button,
      and the result is what is written back. */
  method SaveConfig(file: Config, guildId: int, messageId: int, button: ButtonRecord) returns (written: Config)
    ensures written == Saved(file, Key(guildId), Key(messageId), button)
    ensures Stored(written, Key(guildId), Key(messageId)) == Stored(file, Key(guildId), Key(messageId)) + [button]
    ensures forall g :: g != guildId ==> PyDict.Get(written, Key(g)) == PyDict.Get(file, Key(g))
    ensures forall m :: m != messageId ==>
      PyDict.Get(Messages(written, Key(guildId)), Key(m)) == PyDict.Get(Messages(file, Key(guildId)), Key(m))
  {
    var config := file;
    var guildKey := Key(guildId);
    if PyDict.Get(config, guildKey).None? {
      config := PyDict.Set(config, guildKey, []);
    }
    var messageKey := Key(messageId);
    var messages := PyDict.Get(config, guildKey).value;
    if PyDict.Get(messages, messageKey).None? {
      config := PyDict.Set(config, guildKey, PyDict.Set(messages, messageKey, []));
    }
    messages := PyDict.Get(config, guildKey).value;
    var buttons := PyDict.Get(messages, messageKey).value;
    config := PyDict.Set(config, guildKey, PyDict.Set(messages, messageKey, buttons + [button]));
    written := config;

    ghost var before := Messages(file, guildKey);
    assert messages == before || messages == PyDict.Set(before, messageKey, []);
    PyDict.SetTwice(before, messageKey, [], buttons + [button]);
    PyDict.SetTwice(file, guildKey, [], PyDict.Set(before, messageKey, []));
    PyDict.SetTwice(file, guildKey, [], PyDict.Set(before, messageKey, buttons + [button]));
    PyDict.SetTwice(file, guildKey, PyDict.Set(before, messageKey, []), PyDict.Set(before, messageKey, buttons + [button]));
    PyDict.SetTwice(file, guildKey, before, PyDict.Set(before, messageKey, []));
    PyDict.SetTwice(file, guildKey, before, PyDict.Set(before, messageKey, buttons + [button]));
    forall g | g != guildId
      ensures Key(g) != guildKey
    {
      if Key(g) == guildKey {
        PyInt.ShowInjective(g, guildId);
      }
    }
    forall m | m != messageId
      ensures Key(m) != messageKey
    {
      if Key(m) == messageKey {
        PyInt.ShowInjective(m, messageId);
      }
    }
  }

  /** Saving keeps both levels of the file proper dicts. */
  lemma SavedValid(config: Config, guildKey: string, messageKey: string, button: ButtonRecord)
    requires ValidConfig(config)
    ensures ValidConfig(Saved(config, guildKey, messageKey, button))
  {
    var messages := Messages(config, guildKey);
    var buttons := Stored(config, guildKey, messageKey) + [button];
    var messages' := PyDict.Set(messages, messageKey, buttons);
    var r := PyDict.Set(config, guildKey, messages');
    if PyDict.Get(config, guildKey).Some? {
      assert (guildKey, messages) in config;
      var i :| 0 <= i < |config| && config[i] == (guildKey, messages);
    }
    PyDict.SetKeepsUniqueKeys(messages, messageKey, buttons);
    PyDict.SetKeepsUniqueKeys(config, guildKey, messages');
    forall i | 0 <= i < |r|
      ensures PyDict.UniqueKeys(r[i].1)
    {
      assert r[i] in r;
      if r[i] != (guildKey, messages') {
        var i' :| 0 <= i' < |config| && config[i'] == r[i];
      }
    }
  }

  /** There is no duplicate check: saving the same button twice for one
      message leaves it in the list twice. */
  lemma SavedTwiceKeepsBoth(config: Config, guildKey: string, messageKey: string, button: ButtonRecord)
    ensures Stored(Saved(Saved(config, guildKey, messageKey, button), guildKey, messageKey, button), guildKey, messageKey)
            == Stored(config, guildKey, messageKey) + [button, button]
  {
    var once := Saved(config, guildKey, messageKey, button);
    assert Stored(once, guildKey, messageKey) + [button] == Stored(config, guildKey, messageKey) + [button, button];
  }

  /** A message registered at start-up: its id and the view of its buttons. */
  datatype Registration<S> = Registration(messageId: int, view: seq<RoleButton<S>>)

  /** A saved button as `load_config` rebuilds it; the colour stays the
      saved name. */
  function ReplayButton(record: ButtonRecord): RoleButton<string> {
    RoleButton(record.roleId, record.emoji.GetOr(DefaultEmoji), record.colour)
  }

  /** The view rebuilt from a saved list: one button per record, in the
      saved order, with the saved role and colour name, and the default
      emoji where the record has none. */
  function ReplayButtons(records: seq<ButtonRecord>): (view: seq<RoleButton<string>>)
    ensures |view| == |records|
    ensures forall i :: 0 <= i < |records| ==>
      && view[i].roleId == records[i].roleId
      && view[i].style == records[i].colour
      && (records[i].emoji.None? ==> view[i].emoji == DefaultEmoji)
      && (records[i].emoji.Some? ==> view[i].emoji == records[i].emoji.value)
  {
    if records == [] then []
    else ReplayButtons(records[..|records| - 1]) + [ReplayButton(records[|records| - 1])]
  }

  /** A record appended to a saved list replays as one more button, last. */
  lemma ReplayButtonsAppend(records: seq<ButtonRecord>, record: ButtonRecord)
    ensures ReplayButtons(records + [record]) == ReplayButtons(records) + [ReplayButton(record)]
  {
    assert (records + [record])[..|records|] == records;
  }

  /** `int(message_id)` raised for a message key. */
  datatype LoadError = MessageKeyNotInt(key: string)

  predicate KeysAreInts(messages: MessageButtons) {
    forall j :: 0 <= j < |messages| ==> PyInt.Parse(messages[j].0).Some?
  }

  /** Every message key of the file reads as an integer. */
  predicate Replayable(config: Config) {
    forall i :: 0 <= i < |config| ==> KeysAreInts(config[i].1)
  }

  /** The registrations for one guild's messages, in the dict's order; the
      first message key that is not an integer stops the replay. */
  function ReplayMessages(messages: MessageButtons): Result<seq<Registration<string>>, LoadError> {
    if messages == [] then Ok([])
    else
      match ReplayMessages(messages[..|messages| - 1])
      case Err(e) => Err(e)
      case Ok(regs) =>
        var last := messages[|messages| - 1];
        match PyInt.Parse(last.0)
        case None => Err(MessageKeyNotInt(last.0))
        case Some(id) => Ok(regs + [Registration(id, ReplayButtons(last.1))])
  }

  /** A guild's messages replay exactly when every key is an integer, and
      then each message is registered under the integer of its key with the
      view of its saved buttons; otherwise the error names the first key
      that is not an integer. */
  lemma {:induction false} ReplayMessagesSpec(messages: MessageButtons)
    ensures ReplayMessages(messages).Ok? <==> KeysAreInts(messages)
    ensures ReplayMessages(messages).Ok? ==> |ReplayMessages(messages).value| == |messages|
    ensures ReplayMessages(messages).Ok? ==> forall j :: 0 <= j < |messages| ==>
      PyInt.Parse(messages[j].0) == Some(ReplayMessages(messages).value[j].messageId)
      && ReplayMessages(messages).value[j].view == ReplayButtons(messages[j].1)
    ensures ReplayMessages(messages).Err? ==> exists j :: (0 <= j < |messages| && KeysAreInts(messages[..j])
      && PyInt.Parse(messages[j].0).None? && ReplayMessages(messages).error == MessageKeyNotInt(messages[j].0))
    decreases |messages|
  {
    if messages != [] {
      var init := messages[..|messages| - 1];
      ReplayMessagesSpec(init);
      assert forall j :: 0 <= j < |init| ==> init[j] == messages[j];
      if ReplayMessages(init).Err? {
        assert forall j :: 0 <= j < |init| ==> init[..j] == messages[..j];
      } else if PyInt.Parse(messages[|messages| - 1].0).None? {
        assert messages[..|messages| - 1] == init;
      }
    }
  }

  /** `load_config`'s registrations for the whole file: guild by guild, each
      guild's messages in order. */
  function Registrations(config: Config): Result<seq<Registration<string>>, LoadError> {
    if config == [] then Ok([])
    else
      match Registrations(config[..|config| - 1])
      case Err(e) => Err(e)
      case Ok(regs) =>
        match ReplayMessages(config[|config| - 1].1)
        case Err(e) => Err(e)
        case Ok(more) => Ok(regs + more)
  }

  /** The whole file replays exactly when every message key of every guild
      is an integer. */
  lemma {:induction false} RegistrationsOk(config: Config)
    ensures Registrations(config).Ok? <==> Replayable(config)
    decreases |config|
  {
    if config != [] {
      var init := config[..|config| - 1];
      RegistrationsOk(init);
      ReplayMessagesSpec(config[|config| - 1].1);
      assert forall i :: 0 <= i < |init| ==> init[i] == config[i];
    }
  }

  /** Once a prefix of a guild's messages fails, the whole guild fails the same way. */
  lemma {:induction false} ReplayMessagesErrPersists(messages: MessageButtons, j: nat)
    requires j <= |messages|
    requires ReplayMessages(messages[..j]).Err?
    ensures ReplayMessages(messages) == ReplayMessages(messages[..j])
    decreases |messages|
  {
    if j < |messages| {
      var init := messages[..|messages| - 1];
      assert init[..j] == messages[..j];
      ReplayMessagesErrPersists(init, j);
    } else {
      assert messages[..j] == messages;
    }
  }

  /** Once a prefix of the guilds fails, the whole replay fails the same way. */
  lemma {:induction false} RegistrationsErrPersists(config: Config, i: nat)
    requires i <= |config|
    requires Registrations(config[..i]).Err?
    ensures Registrations(config) == Registrations(config[..i])
    decreases |config|
  {
    if i < |config| {
      var init := config[..|config| - 1];
      assert init[..i] == config[..i];
      RegistrationsErrPersists(init, i);
    } else {
      assert config[..i] == config;
    }
  }

  /** The replay stops at the first message key that is not an integer. */
  lemma ReplayFailsAt(config: Config, i: nat, j: nat)
    requires i < |config| && j < |config[i].1|
    requires Registrations(config[..i]).Ok?
    requires ReplayMessages(config[i].1[..j]).Ok?
    requires PyInt.Parse(config[i].1[j].0).None?
    ensures Registrations(config) == Err(MessageKeyNotInt(config[i].1[j].0))
  {
    var messages := config[i].1;
    assert messages[..j + 1][..j] == messages[..j];
    assert ReplayMessages(messages[..j + 1]) == Err(MessageKeyNotInt(messages[j].0));
    ReplayMessagesErrPersists(messages, j + 1);
    assert config[..i + 1][..i] == config[..i];
    RegistrationsErrPersists(config, i + 1);
  }

  /** A guild whose messages all replay extends the registrations by its own. */
  lemma ReplayGuildDone(config: Config, i: nat)
    requires i < |config|
    requires Registrations(config[..i]).Ok?
    requires ReplayMessages(config[i].1).Ok?
    ensures Registrations(config[..i + 1])
            == Ok(Registrations(config[..i]).value + ReplayMessages(config[i].1).value)
  {
    assert config[..i + 1][..i] == config[..i];
  }

  /** The inner loop of `load_config`: a fresh view gets one button per
      saved record, in order. */
  method BuildView(buttons: seq<ButtonRecord>) returns (view: seq<RoleButton<string>>)
    ensures view == ReplayButtons(buttons)
  {
    view := [];
    var k := 0;
    while k < |buttons|
      invariant 0 <= k <= |buttons|
      invariant view == ReplayButtons(buttons[..k])
    {
      var button := buttons[k];
      view := view + [RoleButton(button.roleId, button.emoji.GetOr(DefaultEmoji), button.colour)];
      assert buttons[..k + 1][..k] == buttons[..k];
      k := k + 1;
    }
    assert buttons[..k] == buttons;
  }

  /** The replay reaches message `j` of guild `i` with every message before
      it registered, and that message's key is not an integer. */
  predicate FailsFirstAt(config: Config, i: nat, j: nat) {
    && i < |config| && j < |config[i].1|
    && Registrations(config[..i]).Ok?
    && ReplayMessages(config[i].1[..j]).Ok?
    && PyInt.Parse(config[i].1[j].0).None?
  }

  /** `load_config`: for each guild, for each of its messages, a view is
      built button by button and registered under the message id. A message
      key that is not an integer raises out of the loops; the views
      registered before it stay registered. */
  method LoadConfig(config: Config) returns (registered: seq<Registration<string>>, failure: Option<LoadError>)
    ensures failure.None? <==> Registrations(config).Ok?
    ensures failure.None? ==> registered == Registrations(config).value
    ensures failure.Some? ==> Registrations(config) == Err(failure.value)
    ensures failure.Some? ==> exists i: nat, j: nat :: (FailsFirstAt(config, i, j)
      && registered == Registrations(config[..i]).value + ReplayMessages(config[i].1[..j]).value)
  {
    registered := [];
    var i := 0;
    while i < |config|
      invariant 0 <= i <= |config|
      invariant Registrations(config[..i]) == Ok(registered)
    {
      var messages := config[i].1;
      ghost var before := registered;
      var j := 0;
      while j < |messages|
        invariant 0 <= j <= |messages|
        invariant ReplayMessages(messages[..j]).Ok?
        invariant registered == before + ReplayMessages(messages[..j]).value
      {
        var messageKey, buttons := messages[j].0, messages[j].1;
        var view := BuildView(buttons);
        var messageId := PyInt.Parse(messageKey);
        if messageId.None? {
          failure := Some(MessageKeyNotInt(messageKey));
          ReplayFailsAt(config, i, j);
          assert FailsFirstAt(config, i, j);
          return;
        }
        registered := registered + [Registration(messageId.value, view)];
        assert messages[..j + 1][..j] == messages[..j];
        j := j + 1;
      }
      assert messages[..j] == messages;
      ReplayGuildDone(config, i);
      i := i + 1;
    }
    assert config[..i] == config;
    failure := None;
  }

  /** Assigning a message key that reads as an integer keeps all keys integers. */
  lemma SetKeepsKeysInts(messages: MessageButtons, messageKey: string, buttons: seq<ButtonRecord>)
    requires KeysAreInts(messages)
    requires PyInt.Parse(messageKey).Some?
    ensures KeysAreInts(PyDict.Set(messages, messageKey, buttons))
  {
    var messages' := PyDict.Set(messages, messageKey, buttons);
    forall j | 0 <= j < |messages'|
      ensures PyInt.Parse(messages'[j].0).Some?
    {
      assert messages'[j] in messages';
      if messages'[j].0 != messageKey {
        var j' :| 0 <= j' < |messages| && messages[j'] == messages'[j];
      }
    }
  }

  /** Replacing a guild's messages by messages whose keys are integers keeps
      the file replayable. */
  lemma SetKeepsReplayable(config: Config, guildKey: string, messages: MessageButtons)
    requires Replayable(config)
    requires KeysAreInts(messages)
    ensures Replayable(PyDict.Set(config, guildKey, messages))
  {
    var r := PyDict.Set(config, guildKey, messages);
    forall i | 0 <= i < |r|
      ensures KeysAreInts(r[i].1)
    {
      assert r[i] in r;
      if r[i] != (guildKey, messages) {
        var i' :| 0 <= i' < |config| && config[i'] == r[i];
      }
    }
  }

  /** Saving under a message key that reads as an integer keeps every key
      of the file readable at start-up. */
  lemma SavedReplayable(config: Config, guildKey: string, messageKey: string, button: ButtonRecord)
    requires Replayable(config)
    requires PyInt.Parse(messageKey).Some?
    ensures Replayable(Saved(config, guildKey, messageKey, button))
  {
    var messages := Messages(config, guildKey);
    var buttons := Stored(config, guildKey, messageKey) + [button];
    if PyDict.Get(config, guildKey).Some? {
      assert (guildKey, messages) in config;
      var i :| 0 <= i < |config| && config[i] == (guildKey, messages);
    }
    SetKeepsKeysInts(messages, messageKey, buttons);
    SetKeepsReplayable(config, guildKey, PyDict.Set(messages, messageKey, buttons));
  }

  /** Every registration of one guild is among the registrations of the file. */
  lemma {:induction false} RegistrationsInclude(config: Config, i: nat, reg: Registration<string>)
    requires Replayable(config)
    requires i < |config|
    requires ReplayMessages(config[i].1).Ok? && reg in ReplayMessages(config[i].1).value
    ensures Registrations(config).Ok? && reg in Registrations(config).value
    decreases |config|
  {
    var init := config[..|config| - 1];
    assert forall k :: 0 <= k < |init| ==> init[k] == config[k];
    RegistrationsOk(init);
    ReplayMessagesSpec(config[|config| - 1].1);
    if i < |config| - 1 {
      RegistrationsInclude(init, i, reg);
    }
  }

  /** A button saved for a message is replayed at the next start: the file
      still loads, and the message is registered with its earlier buttons
      followed by the new one. */
  lemma SaveThenReplay(config: Config, guildId: int, messageId: int, button: ButtonRecord)
    requires Replayable(config)
    ensures var saved := Saved(config, Key(guildId), Key(messageId), button);
      && Registrations(saved).Ok?
      && Registration(messageId, ReplayButtons(Stored(config, Key(guildId), Key(messageId))) + [ReplayButton(button)])
         in Registrations(saved).value
  {
    var guildKey, messageKey := Key(guildId), Key(messageId);
    var saved := Saved(config, guildKey, messageKey, button);
    PyInt.ParseShow(messageId);
    SavedReplayable(config, guildKey, messageKey, button);
    var messages := Messages(saved, guildKey);
    var buttons := Stored(saved, guildKey, messageKey);
    assert (guildKey, messages) in saved;
    var i :| 0 <= i < |saved| && saved[i] == (guildKey, messages);
    assert (messageKey, buttons) in messages;
    var j :| 0 <= j < |messages| && messages[j] == (messageKey, buttons);
    ReplayMessagesSpec(messages);
    var regs := ReplayMessages(messages).value;
    var before := Stored(config, guildKey, messageKey);
    ReplayButtonsAppend(before, button);
    assert regs[j] == Registration(messageId, ReplayButtons(buttons));
    RegistrationsInclude(saved, i, regs[j]);
  }
}
