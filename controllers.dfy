/**
 * The administration controller: the administrator gate, the flag toggles
 * on tools and users, the premium requests and the deletes.
 *
 * The session and TempData are fields of the controller; the user and
 * favourite services only pass calls on to their repositories, which the
 * controller here calls directly. Deleting the plugin file and the console
 * messages are left out. An exception a handler does not catch ends the
 * request with that exception: the result Failed(message).
 */
module Controllers {
  import opened Wrappers
  import opened Models
  import opened Data
  import opened Repositories
  import opened Services
  import opened Middlewares

  datatype ActionResult =
    | RedirectToAction(action: string, controller: string)
    | NotFound
    | ToolsView(tools: seq<Tool>)
    | UsersView(users: seq<User>)
    | Failed(message: string)

  const LoginRedirect := RedirectToAction("Login", "Auth")
  const HomeRedirect := RedirectToAction("Index", "Home")
  const ToManageTools := RedirectToAction("ManageTools", "Admin")
  const ToManageUsers := RedirectToAction("ManageUsers", "Admin")
  const ToolDeleted := "Tool and associated files deleted successfully."

  /** The tool with `enabled` negated. */
  function ToggledStatus(t: Tool): (r: Tool)
    ensures r.enabled == !t.enabled && r.(enabled := t.enabled) == t
  {
    t.(enabled := !t.enabled)
  }

  /** The tool with `premium_required` negated. */
  function ToggledPremium(t: Tool): (r: Tool)
    ensures r.premiumRequired == !t.premiumRequired && r.(premiumRequired := t.premiumRequired) == t
  {
    t.(premiumRequired := !t.premiumRequired)
  }

  /** The user with `premium` negated; an upgrade also clears the request. */
  function TogglePremium(u: User): (r: User)
    ensures r.premium == !u.premium
    ensures r.requestPremium == (u.requestPremium && u.premium)
    ensures r.usid == u.usid && r.username == u.username && r.isAdmin == u.isAdmin
  {
    var user := u.(premium := !u.premium);
    if user.premium then user.(requestPremium := false) else user
  }

  /** The user with the request cleared and `premium` as it was. */
  function DeniedRequest(u: User): (r: User)
    ensures !r.requestPremium && r.(requestPremium := u.requestPremium) == u
  {
    u.(requestPremium := false)
  }

  /** The session as a handler leaves it after writing a user's flags to it. */
  function WithFlags(session: Session, u: User): (r: Session)
    ensures r.premium == Some(if u.premium then 1 else 0) && r.requestPremium == Some(if u.requestPremium then 1 else 0)
    ensures r.isAdmin == session.isAdmin && r.userId == session.userId
  {
    session.(premium := Some(if u.premium then 1 else 0), requestPremium := Some(if u.requestPremium then 1 else 0))
  }

  /** A null username interpolates as the empty string. */
  function NameOf(u: User): string
  {
    if u.username.None? then "" else u.username.value
  }

  function PremiumMessage(u: User): string
  {
    if u.premium then "Đã nâng cấp " + NameOf(u) + " lên Premium" else "Đã hạ cấp " + NameOf(u) + " xuống Free"
  }

  function DenyMessage(u: User): string
  {
    "Đã từ chối yêu cầu nâng cấp Premium của người dùng " + NameOf(u)
  }

  function RequestsPremium(): User -> bool
  {
    (u: User) => u.requestPremium
  }

  // ---- properties of the toggles ----

  /**
   * Negating a flag on the tool with key id twice restores the table: the
   * second call finds the tool the first call wrote.
   */
  lemma {:induction false} ReplaceRestores(ts: seq<Tool>, t: Tool, u: Tool)
    requires ToolKeysUnique(ts) && t in ts && u.tid == t.tid
    ensures FindById(ReplaceTool(ts, u), t.tid) == Some(u)
    ensures ReplaceTool(ReplaceTool(ts, u), t) == ts
  {
    var ts1 := ReplaceTool(ts, u);
    var found := FindById(ts1, t.tid);
    assert t.tid in ToolIds(ts1) by {
      var j :| 0 <= j < |ts| && ts[j] == t;
      assert ts1[j] == u;
    }
    var k :| 0 <= k < |ts1| && ts1[k] == found.value;
    assert ts1[k] == u;
    var r := ReplaceTool(ts1, t);
    forall i | 0 <= i < |ts| ensures r[i] == ts[i] {
      if ts[i].tid == t.tid {
        var j :| 0 <= j < |ts| && ts[j] == t;
        assert i == j;
      }
    }
  }

  /** Two UpdateToolStatus calls on one tool leave the tools as they were. */
  lemma StatusTwiceRestores(ts: seq<Tool>, id: int)
    requires ToolKeysUnique(ts) && id in ToolIds(ts)
    ensures var t := FindById(ts, id).value;
      var ts1 := ReplaceTool(ts, ToggledStatus(t));
      var t1 := FindById(ts1, id).value;
      ReplaceTool(ts1, ToggledStatus(t1)) == ts
  {
    var t := FindById(ts, id).value;
    ReplaceRestores(ts, t, ToggledStatus(t));
  }

  /** Two UpdateToolPremium calls on one tool leave the tools as they were. */
  lemma PremiumTwiceRestores(ts: seq<Tool>, id: int)
    requires ToolKeysUnique(ts) && id in ToolIds(ts)
    ensures var t := FindById(ts, id).value;
      var ts1 := ReplaceTool(ts, ToggledPremium(t));
      var t1 := FindById(ts1, id).value;
      ReplaceTool(ts1, ToggledPremium(t1)) == ts
  {
    var t := FindById(ts, id).value;
    ReplaceRestores(ts, t, ToggledPremium(t));
  }

  /** Toggling a user's premium twice gives the user back without a pending request. */
  lemma TogglePremiumTwice(u: User)
    ensures TogglePremium(TogglePremium(u)) == u.(requestPremium := false)
  {
    var v := TogglePremium(u);
    assert v.premium != u.premium;
  }

  class AdminController {
    const toolService: ToolService
    const users: UserRepository
    const favourites: FavouriteRepository
    var session: Session
    var tempData: map<string, string>

    /** All services share one valid database context. */
    ghost predicate Valid()
      reads toolService.tools.db
    {
      toolService.Valid() && users.db == toolService.tools.db && favourites.db == toolService.tools.db
    }

    constructor (toolService: ToolService, users: UserRepository, favourites: FavouriteRepository, session: Session)
      ensures this.toolService == toolService && this.users == users && this.favourites == favourites
      ensures this.session == session && tempData == map[]
    {
      this.toolService := toolService;
      this.users := users;
      this.favourites := favourites;
      this.session := session;
      this.tempData := map[];
    }

    /** The session's isAdmin is 1. */
    predicate IsAdmin()
      reads this
    {
      session.isAdmin == Some(1)
    }

    /** Index: administrators go on to ManageTools, everyone else to the login page. */
    function Index(): (r: ActionResult)
      reads this
      ensures r == (if IsAdmin() then ToManageTools else LoginRedirect)
    {
      if session.isAdmin != Some(1) then LoginRedirect else ToManageTools
    }

    /** ManageTools: every tool, ordered by category, for an administrator. */
    function ManageTools(): (r: ActionResult)
      reads this, toolService.tools.db
      ensures !IsAdmin() ==> r == LoginRedirect
      ensures IsAdmin() ==> r.ToolsView? && SortedByCategory(r.tools)
      ensures IsAdmin() ==> r.ToolsView? && multiset(r.tools) == multiset(toolService.tools.db.tools)
    {
      if session.isAdmin != Some(1) then LoginRedirect else ToolsView(toolService.GetAllTools())
    }

    /** ManageUsers: every user, for an administrator. */
    function ManageUsers(): (r: ActionResult)
      reads this, users.db
      ensures !IsAdmin() ==> r == LoginRedirect
      ensures IsAdmin() ==> r == UsersView(users.db.users)
    {
      if session.isAdmin != Some(1) then LoginRedirect else UsersView(users.GetAllUsers())
    }

    /** PremiumRequests: the users with a pending request; a non-administrator goes to the home page. */
    function PremiumRequests(): (r: ActionResult)
      reads this, users.db
      ensures !IsAdmin() ==> r == HomeRedirect
      ensures IsAdmin() ==> r.UsersView? && forall u :: u in r.users <==> u in users.db.users && u.requestPremium
    {
      if session.isAdmin != Some(1) then HomeRedirect else UsersView(Filter(users.GetAllUsers(), RequestsPremium()))
    }

    /**
     * UpdateToolStatus: `enabled` of the tool with key id is negated and
     * written back; the `enabled` argument is not used. An invalid record
     * makes UpdateTool throw.
     */
    method UpdateToolStatus(id: int, enabled: bool) returns (r: ActionResult)
      requires Valid()
      modifies toolService.tools.db
      ensures Valid()
      ensures !IsAdmin() ==> r == LoginRedirect && unchanged(toolService.tools.db)
      ensures IsAdmin() && id !in ToolIds(old(toolService.tools.db.tools)) ==> r == NotFound && unchanged(toolService.tools.db)
      ensures IsAdmin() && id in ToolIds(old(toolService.tools.db.tools)) ==>
        var t := ToggledStatus(FindById(old(toolService.tools.db.tools), id).value);
        if toolService.ValidateTool(t) then
          r == ToManageTools && toolService.tools.db.tools == ReplaceTool(old(toolService.tools.db.tools), t)
        else r == Failed(ValidationFailed) && unchanged(toolService.tools.db)
      ensures toolService.tools.db.users == old(toolService.tools.db.users)
      ensures toolService.tools.db.favorites == old(toolService.tools.db.favorites)
    {
      if session.isAdmin != Some(1) {
        return LoginRedirect;
      }
      var tool := toolService.GetToolById(id);
      if tool.None? {
        return NotFound;
      }
      var outcome := toolService.UpdateTool(ToggledStatus(tool.value));
      r := if outcome.Thrown? then Failed(outcome.message) else ToManageTools;
    }

    /** UpdateToolPremium: `premium_required` negated and written back; the argument is not used. */
    method UpdateToolPremium(id: int, premium: bool) returns (r: ActionResult)
      requires Valid()
      modifies toolService.tools.db
      ensures Valid()
      ensures !IsAdmin() ==> r == LoginRedirect && unchanged(toolService.tools.db)
      ensures IsAdmin() && id !in ToolIds(old(toolService.tools.db.tools)) ==> r == NotFound && unchanged(toolService.tools.db)
      ensures IsAdmin() && id in ToolIds(old(toolService.tools.db.tools)) ==>
        var t := ToggledPremium(FindById(old(toolService.tools.db.tools), id).value);
        if toolService.ValidateTool(t) then
          r == ToManageTools && toolService.tools.db.tools == ReplaceTool(old(toolService.tools.db.tools), t)
        else r == Failed(ValidationFailed) && unchanged(toolService.tools.db)
      ensures toolService.tools.db.users == old(toolService.tools.db.users)
      ensures toolService.tools.db.favorites == old(toolService.tools.db.favorites)
    {
      if session.isAdmin != Some(1) {
        return LoginRedirect;
      }
      var tool := toolService.GetToolById(id);
      if tool.None? {
        return NotFound;
      }
      var outcome := toolService.UpdateTool(ToggledPremium(tool.value));
      r := if outcome.Thrown? then Failed(outcome.message) else ToManageTools;
    }

    /**
     * DeleteTool: an unknown id gives NotFound; otherwise the tool and then
     * its favourites are removed and the success message is set.
     */
    method DeleteTool(id: int) returns (r: ActionResult)
      requires Valid()
      modifies this, toolService.tools.db
      ensures Valid()
      ensures session == old(session)
      ensures !IsAdmin() || id !in ToolIds(old(toolService.tools.db.tools)) ==>
        r == (if IsAdmin() then NotFound else LoginRedirect) && unchanged(toolService.tools.db) && tempData == old(tempData)
      ensures IsAdmin() && id in ToolIds(old(toolService.tools.db.tools)) ==>
        r == ToManageTools && tempData == old(tempData)["SuccessMessage" := ToolDeleted] &&
        toolService.tools.db.tools == WithoutTool(old(toolService.tools.db.tools), id) &&
        toolService.tools.db.favorites == FavouritesWithoutTool(old(toolService.tools.db.favorites), id)
      ensures toolService.tools.db.users == old(toolService.tools.db.users)
    {
      if session.isAdmin != Some(1) {
        return LoginRedirect;
      }
      var tool := toolService.GetToolById(id);
      if tool.None? {
        return NotFound;
      }
      toolService.DeleteTool(id);
      ghost var favs := toolService.tools.db.favorites;
      favourites.RemoveFromFavouritesByToolId(id);
      assert FavouritesWithoutTool(favs, id) == favs;
      tempData := tempData["SuccessMessage" := ToolDeleted];
      r := ToManageTools;
    }

    /**
     * UpdateUserPremium: there is no administrator check. The user's premium
     * is negated, the request cleared on an upgrade, the row written back,
     * and the user's new flags written into the caller's session.
     */
    method UpdateUserPremium(id: int, premium: bool) returns (r: ActionResult)
      requires Valid()
      modifies this, toolService.tools.db
      ensures Valid()
      ensures id !in UserIds(old(users.db.users)) ==>
        r == NotFound && unchanged(this) && unchanged(toolService.tools.db)
      ensures id in UserIds(old(users.db.users)) ==>
        var u := TogglePremium(FindUser(old(users.db.users), id).value);
        r == ToManageUsers && users.db.users == ReplaceUser(old(users.db.users), u) &&
        session == WithFlags(old(session), u) && tempData == old(tempData)["Message" := PremiumMessage(u)]
      ensures users.db.tools == old(users.db.tools) && users.db.favorites == old(users.db.favorites)
    {
      var user := users.GetUserById(id);
      if user.None? {
        return NotFound;
      }
      var u := TogglePremium(user.value);
      var _ := users.UpdateUser(u);
      session := WithFlags(session, u);
      tempData := tempData["Message" := PremiumMessage(u)];
      r := ToManageUsers;
    }

    /**
     * UpdateUserPremium as the other handlers of the page are written: a
     * caller who is not an administrator goes to the login page and nothing
     * changes, and the caller's own session is left alone.
     */
    method UpdateUserPremiumChecked(id: int, premium: bool) returns (r: ActionResult)
      requires Valid()
      modifies this, toolService.tools.db
      ensures Valid()
      ensures session == old(session)
      ensures !IsAdmin() ==> r == LoginRedirect && unchanged(this) && unchanged(toolService.tools.db)
      ensures IsAdmin() && id !in UserIds(old(users.db.users)) ==>
        r == NotFound && unchanged(this) && unchanged(toolService.tools.db)
      ensures IsAdmin() && id in UserIds(old(users.db.users)) ==>
        var u := TogglePremium(FindUser(old(users.db.users), id).value);
        r == ToManageUsers && users.db.users == ReplaceUser(old(users.db.users), u) &&
        tempData == old(tempData)["Message" := PremiumMessage(u)]
      ensures users.db.tools == old(users.db.tools) && users.db.favorites == old(users.db.favorites)
    {
      if session.isAdmin != Some(1) {
        return LoginRedirect;
      }
      var user := users.GetUserById(id);
      if user.None? {
        return NotFound;
      }
      var u := TogglePremium(user.value);
      var _ := users.UpdateUser(u);
      tempData := tempData["Message" := PremiumMessage(u)];
      r := ToManageUsers;
    }

    /** DeleteUser: the user is removed and so are the favourites naming it. */
    method DeleteUser(id: int) returns (r: ActionResult)
      requires Valid()
      modifies toolService.tools.db
      ensures Valid()
      ensures !IsAdmin() ==> r == LoginRedirect && unchanged(toolService.tools.db)
      ensures IsAdmin() ==> r == ToManageUsers
      ensures IsAdmin() ==> users.db.favorites == FavouritesWithoutUser(old(users.db.favorites), id)
      ensures IsAdmin() ==>
        users.db.users == (if id in UserIds(old(users.db.users)) then WithoutUser(old(users.db.users), id) else old(users.db.users))
      ensures users.db.tools == old(users.db.tools)
    {
      if session.isAdmin != Some(1) {
        return LoginRedirect;
      }
      users.DeleteUser(id);
      favourites.RemoveFromFavouritesByUserId(id);
      ghost var f0 := old(users.db.favorites);
      assert FavouritesWithoutUser(FavouritesWithoutUser(f0, id), id) == FavouritesWithoutUser(f0, id);
      r := ToManageUsers;
    }

    /**
     * DenyPremiumRequest: the request is cleared and premium kept; the
     * user's flags are written into the caller's session.
     */
    method DenyPremiumRequest(id: int) returns (r: ActionResult)
      requires Valid()
      modifies this, toolService.tools.db
      ensures Valid()
      ensures !IsAdmin() || id !in UserIds(old(users.db.users)) ==>
        r == (if IsAdmin() then NotFound else HomeRedirect) && unchanged(this) && unchanged(toolService.tools.db)
      ensures IsAdmin() && id in UserIds(old(users.db.users)) ==>
        var u := DeniedRequest(FindUser(old(users.db.users), id).value);
        r == ToManageUsers && users.db.users == ReplaceUser(old(users.db.users), u) &&
        session == WithFlags(old(session), u) && tempData == old(tempData)["Message" := DenyMessage(u)]
      ensures users.db.tools == old(users.db.tools) && users.db.favorites == old(users.db.favorites)
    {
      if session.isAdmin != Some(1) {
        return HomeRedirect;
      }
      var user := users.GetUserById(id);
      if user.None? {
        return NotFound;
      }
      var u := DeniedRequest(user.value);
      var _ := users.UpdateUser(u);
      session := WithFlags(session, u);
      tempData := tempData["Message" := DenyMessage(u)];
      r := ToManageUsers;
    }
  }
}
