/** The reaction-role button and its click handler
    (`ReactionRoleButton` in cogs/reactionrole.py). Role ids and role sets
    are plain integers; the chat platform's calls that change a member's
    roles are represented by their outcome. */
module RoleButtons {
  import opened Wrappers
  import PyInt

  /** The four button styles the cog names. */
  datatype ButtonStyle = Blurple | Grey | Green | Red

  /** A role button: the role it toggles, its emoji and its style. The style
      type is a parameter because buttons replayed at start-up carry the
      colour name as saved, not a resolved style. */
  datatype RoleButton<S> = RoleButton(roleId: int, emoji: string, style: S)

  /** The button's `custom_id`: the role id in decimal. */
  function CustomId<S>(b: RoleButton<S>): string {
    PyInt.Show(b.roleId)
  }

  /** Reading a button's `custom_id` back with `int()` gives its role id. */
  lemma CustomIdRoundTrip<S>(b: RoleButton<S>)
    ensures PyInt.Parse(CustomId(b)) == Some(b.roleId)
  {
    PyInt.ParseShow(b.roleId);
  }

  /** Two buttons for different roles never share a `custom_id`. */
  lemma CustomIdsDiffer<S>(a: RoleButton<S>, b: RoleButton<S>)
    requires a.roleId != b.roleId
    ensures CustomId(a) != CustomId(b)
  {
    if CustomId(a) == CustomId(b) {
      PyInt.ShowInjective(a.roleId, b.roleId);
    }
  }

  /** The role set after the click's add-or-remove decision: exactly the
      membership of `role` flips. */
  function Toggle(role: int, roles: set<int>): (r: set<int>)
    ensures role in r <==> role !in roles
    ensures forall x :: x != role ==> (x in r <==> x in roles)
  {
    if role in roles then roles - {role} else roles + {role}
  }

  /** What the platform did when asked to add or remove the role. */
  datatype RoleEdit = Applied | Forbidden | Failed

  /** The ephemeral reply the clicking member sees. */
  datatype ClickReply = RoleRemoved | RoleAssigned | PermissionError | Error

  datatype Click = Click(reply: ClickReply, roles: set<int>)

  /** A click on `b` by a member holding `memberRoles`, in a guild whose
      roles are `guildRoles`. A role the guild no longer has is looked up as
      `None`, which is not among the member's roles, so adding it is
      attempted and raises: the generic error. */
  function Callback<S>(b: RoleButton<S>, guildRoles: set<int>, memberRoles: set<int>, edit: RoleEdit): (c: Click)
    ensures c.roles == memberRoles || c.roles == Toggle(b.roleId, memberRoles)
    ensures forall x :: x != b.roleId ==> (x in c.roles <==> x in memberRoles)
    ensures c.reply == RoleRemoved ==> b.roleId in memberRoles && b.roleId !in c.roles
    ensures c.reply == RoleAssigned ==> b.roleId !in memberRoles && b.roleId in c.roles
    ensures c.reply in {RoleRemoved, RoleAssigned} <==> b.roleId in guildRoles && edit == Applied
    ensures c.reply == PermissionError <==> b.roleId in guildRoles && edit == Forbidden
    ensures c.reply in {PermissionError, Error} ==> c.roles == memberRoles
  {
    if b.roleId !in guildRoles then
      Click(Error, memberRoles)
    else if b.roleId in memberRoles then
      match edit
      case Applied => Click(RoleRemoved, memberRoles - {b.roleId})
      case Forbidden => Click(PermissionError, memberRoles)
      case Failed => Click(Error, memberRoles)
    else
      match edit
      case Applied => Click(RoleAssigned, memberRoles + {b.roleId})
      case Forbidden => Click(PermissionError, memberRoles)
      case Failed => Click(Error, memberRoles)
  }

  /** Clicking the same button twice, both edits applied, gives the member's
      roles back, and the two replies are one assignment and one removal. */
  lemma {:induction false} ClickTwiceRestores<S>(b: RoleButton<S>, guildRoles: set<int>, memberRoles: set<int>)
    requires b.roleId in guildRoles
    ensures Callback(b, guildRoles, Callback(b, guildRoles, memberRoles, Applied).roles, Applied).roles == memberRoles
    ensures {Callback(b, guildRoles, memberRoles, Applied).reply,
             Callback(b, guildRoles, Callback(b, guildRoles, memberRoles, Applied).roles, Applied).reply}
            == {RoleRemoved, RoleAssigned}
  {
    var once := Callback(b, guildRoles, memberRoles, Applied).roles;
    var twice := Callback(b, guildRoles, once, Applied).roles;
    assert forall x :: x in twice <==> x in memberRoles;
  }
}
