/**
 * The tool service (filters over the repository, the validation rule, the
 * checked writes and the delete with its related rows) and the plugin
 * service (the upload chain and the lookup of a plugin by its slug).
 *
 * The favourite service only passes calls on to the favourite repository;
 * the tool service here calls the repository directly. The plugin files on
 * disk are not part of this model: whether the file is saved is a parameter,
 * and deleting it has no effect here. Utils.Slugify and Utils.Unslugify are
 * parameters.
 */
module Services {
  import opened Wrappers
  import opened Text
  import opened Models
  import opened Data
  import opened Repositories
  import opened Helpers

  /** The message of the exception AddTool and UpdateTool throw for an invalid tool. */
  const ValidationFailed := "Tool validation failed"

  /** Null or empty: string.IsNullOrEmpty. */
  predicate IsNullOrEmpty(s: Option<string>)
  {
    s.None? || s.value == ""
  }

  /** The tool names of a group, in order (a null name stays null). */
  function Names(ts: seq<Tool>): (r: seq<Option<string>>)
    ensures |r| == |ts| && forall i :: 0 <= i < |ts| ==> r[i] == ts[i].toolName
    ensures forall n :: n in r <==> exists t :: t in ts && t.toolName == n
  {
    var r := seq(|ts|, i requires 0 <= i < |ts| => ts[i].toolName);
    forall n | n in r ensures exists t :: t in ts && t.toolName == n {
      var i :| 0 <= i < |r| && r[i] == n;
      assert ts[i] in ts;
    }
    forall t | t in ts ensures t.toolName in r {
      var i :| 0 <= i < |ts| && ts[i] == t;
      assert r[i] == t.toolName;
    }
    r
  }

  class ToolService {
    const tools: ToolRepository
    const favourites: FavouriteRepository

    /** Both repositories work on one valid database context. */
    ghost predicate Valid()
      reads tools.db
    {
      tools.db == favourites.db && tools.db.Valid()
    }

    constructor (tools: ToolRepository, favourites: FavouriteRepository)
      ensures this.tools == tools && this.favourites == favourites
    {
      this.tools := tools;
      this.favourites := favourites;
    }

    function GetAllTools(): seq<Tool>
      reads tools.db
    {
      tools.GetAllTools()
    }

    /** The enabled tools, still ordered by category. */
    function GetEnabledTools(): (r: seq<Tool>)
      reads tools.db
      ensures forall t :: t in r <==> t in tools.db.tools && t.enabled
      ensures SortedByCategory(r)
    {
      var all := GetAllTools();
      assert forall t :: t in all <==> t in multiset(tools.db.tools);
      FilterSorted(all, IsEnabled);
      Filter(all, IsEnabled)
    }

    /** All enabled tools for a premium user, the enabled tools that need no premium otherwise. */
    function GetToolsForUser(isPremiumUser: bool): (r: seq<Tool>)
      reads tools.db
      ensures isPremiumUser ==> r == GetEnabledTools()
      ensures forall t :: t in r <==> t in tools.db.tools && t.enabled && (isPremiumUser || !t.premiumRequired)
    {
      var enabledTools := GetEnabledTools();
      if isPremiumUser then enabledTools
      else Filter(enabledTools, (t: Tool) => !t.premiumRequired)
    }

    /** The names of the tools of each category; an administrator sees the disabled tools too. */
    function GetCategorizedTools(isAdmin: bool): (r: map<string, seq<Option<string>>>)
      reads tools.db
      ensures forall c :: c in r <==> exists t :: t in tools.db.tools && (!isAdmin ==> t.enabled) && t.categoryName == Some(c) && c != ""
      ensures forall c, n :: c in r ==> (n in r[c] <==> exists t :: Shown(t, isAdmin, c) && t.toolName == n)
    {
      var groups := tools.GetToolsByCategory(!isAdmin);
      map c | c in groups :: Names(groups[c])
    }

    /** A tool of category c in the listing an administrator (or not) gets. */
    ghost predicate Shown(t: Tool, isAdmin: bool, c: string)
      reads tools.db
    {
      t in tools.db.tools && (!isAdmin ==> t.enabled) && t.categoryName == Some(c)
    }

    function GetToolById(id: int): Option<Tool>
      reads tools.db
    {
      tools.GetToolById(id)
    }

    function GetToolByName(toolName: string): Option<Tool>
      reads tools.db
    {
      tools.GetToolByName(toolName)
    }

    /** A tool is valid exactly when it has a name and a description, neither empty. */
    function ValidateTool(tool: Tool): (r: bool)
      ensures r <==> !IsNullOrEmpty(tool.toolName) && !IsNullOrEmpty(tool.description)
    {
      if tool.toolName.None? || tool.toolName.value == "" then false
      else if tool.description.None? || tool.description.value == "" then false
      else true
    }

    /** The tools matching the query; a user who is not an administrator sees only enabled ones. */
    function SearchTools(query: string, isAdmin: bool): (r: seq<Tool>)
      reads tools.db
      ensures forall t :: t in r <==> t in tools.db.tools && (!isAdmin ==> t.enabled) && Matches(t, query)
    {
      tools.SearchTools(query, !isAdmin)
    }

    /** An invalid tool throws and nothing is written; a valid one is added by the repository. */
    method AddTool(tool: Tool) returns (r: Result<Tool>)
      requires Valid()
      modifies tools.db
      ensures Valid()
      ensures !ValidateTool(tool) ==> r == Error(ValidationFailed) && unchanged(tools.db)
      ensures ValidateTool(tool) && tool.tid == 0 ==> r == Ok(tool.(tid := old(tools.db.nextTid)))
      ensures ValidateTool(tool) && tool.tid != 0 ==>
        r == (if tool.tid in ToolIds(old(tools.db.tools)) then Error(ConstraintViolated) else Ok(tool))
      ensures r.Ok? ==> tools.db.tools == old(tools.db.tools) + [r.value]
      ensures r.Error? ==> tools.db.tools == old(tools.db.tools)
      ensures tools.db.users == old(tools.db.users) && tools.db.favorites == old(tools.db.favorites)
    {
      if ValidateTool(tool) {
        r := tools.AddTool(tool);
      } else {
        r := Error(ValidationFailed);
      }
    }

    /** An invalid tool throws and nothing is written; a valid one overwrites the row with its key. */
    method UpdateTool(tool: Tool) returns (r: Outcome)
      requires Valid()
      modifies tools.db
      ensures Valid()
      ensures !ValidateTool(tool) ==> r == Thrown(ValidationFailed) && unchanged(tools.db)
      ensures ValidateTool(tool) && tool.tid in ToolIds(old(tools.db.tools)) ==>
        r == Done && tools.db.tools == ReplaceTool(old(tools.db.tools), tool)
      ensures ValidateTool(tool) && tool.tid !in ToolIds(old(tools.db.tools)) ==>
        r == Thrown(NoRowAffected) && tools.db.tools == old(tools.db.tools)
      ensures tools.db.users == old(tools.db.users) && tools.db.favorites == old(tools.db.favorites)
    {
      if ValidateTool(tool) {
        r := tools.UpdateTool(tool);
      } else {
        r := Thrown(ValidationFailed);
      }
    }

    method DeleteTool(id: int)
      requires Valid()
      modifies tools.db
      ensures Valid()
      ensures id !in ToolIds(old(tools.db.tools)) ==> tools.db.tools == old(tools.db.tools) && tools.db.favorites == old(tools.db.favorites)
      ensures id in ToolIds(old(tools.db.tools)) ==>
        tools.db.tools == WithoutTool(old(tools.db.tools), id) && tools.db.favorites == FavouritesWithoutTool(old(tools.db.favorites), id)
      ensures tools.db.users == old(tools.db.users)
    {
      tools.DeleteTool(id);
    }

    /**
     * An unknown id gives false and changes nothing; otherwise the tool's
     * favourites and then the tool are removed, and the answer is true.
     */
    method DeleteToolWithRelatedData(toolId: int) returns (r: bool)
      requires Valid()
      modifies tools.db
      ensures Valid()
      ensures r <==> toolId in ToolIds(old(tools.db.tools))
      ensures !r ==> tools.db.tools == old(tools.db.tools) && tools.db.favorites == old(tools.db.favorites)
      ensures r ==> tools.db.tools == WithoutTool(old(tools.db.tools), toolId)
      ensures r ==> tools.db.favorites == FavouritesWithoutTool(old(tools.db.favorites), toolId)
      ensures tools.db.users == old(tools.db.users)
    {
      var tool := GetToolById(toolId);
      if tool.None? {
        return false;
      }
      favourites.RemoveFromFavouritesByToolId(toolId);
      ghost var favs := tools.db.favorites;
      DeleteTool(toolId);
      assert FavouritesWithoutTool(favs, toolId) == favs;
      r := true;
    }
  }

  /** The uploaded form file: its name and its length in bytes; its content is what `found` reports. */
  datatype UploadedFile = UploadedFile(fileName: string, length: int)

  /** The (Success, Message, Tool) triple AddPluginFromFile returns. */
  datatype Upload = Upload(success: bool, message: string, tool: Option<Tool>)

  /** Index i holds the first plugin whose slugged name is the slug. */
  predicate FirstSlugAt(ps: seq<Plugin>, slug: string, slugify: string -> string, i: int)
  {
    0 <= i < |ps| && slugify(ps[i].name) == slug && forall k :: 0 <= k < i ==> slugify(ps[k].name) != slug
  }

  /** FirstOrDefault(p => Slugify(p.Name) == slug). */
  function FirstWithSlug(ps: seq<Plugin>, slug: string, slugify: string -> string): (r: Option<Plugin>)
    ensures r.None? <==> forall i :: 0 <= i < |ps| ==> slugify(ps[i].name) != slug
    ensures r.Some? ==> exists i :: FirstSlugAt(ps, slug, slugify, i) && ps[i] == r.value
  {
    if ps == [] then None
    else if slugify(ps[0].name) == slug then
      assert FirstSlugAt(ps, slug, slugify, 0);
      Some(ps[0])
    else
      var r := FirstWithSlug(ps[1..], slug, slugify);
      if r.Some? then
        ghost var i :| FirstSlugAt(ps[1..], slug, slugify, i) && ps[1..][i] == r.value;
        assert forall k :: 1 <= k < i + 1 ==> ps[k] == ps[1..][k - 1];
        assert FirstSlugAt(ps, slug, slugify, i + 1);
        r
      else
        assert forall i :: 1 <= i < |ps| ==> ps[i] == ps[1..][i - 1];
        r
  }

  /** The tool record an uploaded plugin gets: enabled, free, named and described by the plugin. */
  function RecordOf(plugin: Plugin, fileName: string): Tool
  {
    Tool(0, Some(plugin.name), Some(plugin.description), true, false, Some(plugin.category), Some(fileName))
  }

  class PluginService {
    const loader: PluginLoader
    const toolService: ToolService

    ghost predicate Valid()
      reads loader, toolService.tools.db
    {
      loader.Valid() && toolService.Valid()
    }

    constructor (loader: PluginLoader, toolService: ToolService)
      ensures this.loader == loader && this.toolService == toolService
    {
      this.loader := loader;
      this.toolService := toolService;
    }

    /**
     * AddPluginFromFile: the file must be there and named *.dll; the bytes are
     * loaded at the path the repository gives for the name, then the file is
     * saved, then the tool record is added. Each failure gives its message and
     * no tool; a failure after the load leaves the plugin loaded.
     */
    method AddPluginFromFile(file: Option<UploadedFile>, pluginPath: string -> string, found: Option<PluginInfo>, saved: bool)
      returns (r: Upload)
      requires Valid()
      modifies loader, toolService.tools.db
      ensures Valid()
      ensures file.None? || file.value.length == 0 ==>
        r == Upload(false, "Please select a DLL file to upload.", None) && unchanged(loader) && unchanged(toolService.tools.db)
      ensures file.Some? && file.value.length != 0 && !EndsWithIgnoreCase(file.value.fileName, ".dll") ==>
        r == Upload(false, "Only .dll files are allowed.", None) && unchanged(loader) && unchanged(toolService.tools.db)
      ensures file.Some? && file.value.length != 0 && EndsWithIgnoreCase(file.value.fileName, ".dll") ==>
        var path := pluginPath(file.value.fileName);
        if path in old(loader.loadedAssemblies) || found.None? then
          r == Upload(false, "Failed to load plugin. Please check file content.", None) &&
          loader.plugins == old(loader.plugins) && loader.loadedAssemblies == old(loader.loadedAssemblies) &&
          unchanged(toolService.tools.db)
        else
          var plugin := Plugin(found.value.name, found.value.description, found.value.category, old(loader.nextAssembly));
          var record := RecordOf(plugin, file.value.fileName);
          loader.plugins == old(loader.plugins) + [plugin] &&
          loader.loadedAssemblies == old(loader.loadedAssemblies)[path := plugin.assembly] &&
          (!saved ==> r == Upload(false, "Failed to save plugin file.", None) && unchanged(toolService.tools.db)) &&
          (saved && !toolService.ValidateTool(record) ==>
            r == Upload(false, "Upload failed: " + ValidationFailed, None) && unchanged(toolService.tools.db)) &&
          (saved && toolService.ValidateTool(record) ==>
            var stored := record.(tid := old(toolService.tools.db.nextTid));
            r == Upload(true, "Tool uploaded successfully!", Some(stored)) &&
            toolService.tools.db.tools == old(toolService.tools.db.tools) + [stored])
    {
      if file.None? || file.value.length == 0 {
        return Upload(false, "Please select a DLL file to upload.", None);
      }
      if !EndsWithIgnoreCase(file.value.fileName, ".dll") {
        return Upload(false, "Only .dll files are allowed.", None);
      }
      var filePath := pluginPath(file.value.fileName);
      var plugin := loader.LoadPluginFromBytes(filePath, found);
      if plugin.None? {
        return Upload(false, "Failed to load plugin. Please check file content.", None);
      }
      if !saved {
        return Upload(false, "Failed to save plugin file.", None);
      }
      var tool := RecordOf(plugin.value, file.value.fileName);
      var added := toolService.AddTool(tool);
      if added.Error? {
        return Upload(false, "Upload failed: " + added.message, None);
      }
      r := Upload(true, "Tool uploaded successfully!", Some(added.value));
    }

    /**
     * GetPluginBySlugName: no tool record for the unslugged name, or a
     * disabled one when checkEnabled is set, gives null; otherwise the first
     * loaded plugin whose slugged name is the slug, or null.
     */
    function GetPluginBySlugName(pluginSlugName: string, checkEnabled: bool,
                                 slugify: string -> string, unslugify: string -> string): (r: Option<Plugin>)
      reads loader, toolService.tools.db
      ensures var tool := toolService.tools.GetToolByName(unslugify(pluginSlugName));
        if tool.None? || (!tool.value.enabled && checkEnabled) then r.None?
        else r == FirstWithSlug(loader.plugins, pluginSlugName, slugify)
      ensures r.Some? ==> r.value in loader.plugins && slugify(r.value.name) == pluginSlugName
    {
      var tool := toolService.GetToolByName(unslugify(pluginSlugName));
      if tool.None? || (!tool.value.enabled && checkEnabled) then None
      else
        var r := FirstWithSlug(loader.plugins, pluginSlugName, slugify);
        if r.Some? then
          ghost var i :| FirstSlugAt(loader.plugins, pluginSlugName, slugify, i) && loader.plugins[i] == r.value;
          r
        else r
    }
  }
}
