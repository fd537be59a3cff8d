/**
 * The plugin loader: the list of plugin instances and the map from a plugin
 * file's path to the assembly loaded from it.
 *
 * Loading an assembly and instantiating its first ITool type is reflection:
 * here it is a parameter `found`, the tool's Name, Description and Category,
 * or None when the bytes do not load, hold no ITool type, or the constructor
 * throws. Each load context gives a fresh assembly, numbered by the loader.
 * Stop is an external call on the plugin; the model records the plugins it
 * was called on, in order.
 */
module Helpers {
  import opened Wrappers
  import opened Text
  import opened Models

  /** What an ITool instance reports about itself. */
  datatype PluginInfo = PluginInfo(name: string, description: string, category: string)

  /** A plugin instance and the assembly its type comes from. */
  datatype Plugin = Plugin(name: string, description: string, category: string, assembly: nat)

  function FromAssembly(a: nat): Plugin -> bool
  {
    (p: Plugin) => p.assembly == a
  }

  function NotFromAssembly(a: nat): Plugin -> bool
  {
    (p: Plugin) => p.assembly != a
  }

  /** List.Remove: the first element equal to x taken out. */
  function RemoveFirst(ps: seq<Plugin>, x: Plugin): (r: seq<Plugin>)
    ensures |r| == if x in ps then |ps| - 1 else |ps|
  {
    if ps == [] then []
    else if ps[0] == x then ps[1..]
    else [ps[0]] + RemoveFirst(ps[1..], x)
  }

  /** ps with its first k plugins of assembly a taken out. */
  function DropFromAssembly(ps: seq<Plugin>, a: nat, k: nat): seq<Plugin>
  {
    if ps == [] then []
    else if ps[0].assembly == a && k > 0 then DropFromAssembly(ps[1..], a, k - 1)
    else [ps[0]] + DropFromAssembly(ps[1..], a, k)
  }

  lemma {:induction false} DropNone(ps: seq<Plugin>, a: nat)
    ensures DropFromAssembly(ps, a, 0) == ps
  {
    if ps != [] {
      DropNone(ps[1..], a);
      assert ps == [ps[0]] + ps[1..];
    }
  }

  /** Taking out as many plugins of a as there are leaves exactly the others. */
  lemma {:induction false} DropAll(ps: seq<Plugin>, a: nat)
    ensures DropFromAssembly(ps, a, |Filter(ps, FromAssembly(a))|) == Filter(ps, NotFromAssembly(a))
  {
    if ps != [] {
      var tail := ps[1..];
      DropAll(tail, a);
      var n := |Filter(tail, FromAssembly(a))|;
      if ps[0].assembly == a {
        assert |Filter(ps, FromAssembly(a))| == n + 1;
        assert Filter(ps, NotFromAssembly(a)) == Filter(tail, NotFromAssembly(a));
        assert DropFromAssembly(ps, a, n + 1) == DropFromAssembly(tail, a, n);
      } else {
        assert |Filter(ps, FromAssembly(a))| == n;
        assert Filter(ps, NotFromAssembly(a)) == [ps[0]] + Filter(tail, NotFromAssembly(a));
        assert DropFromAssembly(ps, a, n) == [ps[0]] + DropFromAssembly(tail, a, n);
      }
    }
  }

  /**
   * One step of OnPluginRemoved's loop: removing the k-th plugin of the
   * assembly, by value, takes out the first of that assembly still there.
   */
  lemma {:induction false} RemoveStep(ps: seq<Plugin>, a: nat, k: nat)
    requires k < |Filter(ps, FromAssembly(a))|
    ensures RemoveFirst(DropFromAssembly(ps, a, k), Filter(ps, FromAssembly(a))[k]) == DropFromAssembly(ps, a, k + 1)
  {
    var rest := Filter(ps[1..], FromAssembly(a));
    FilterCons(ps[0], ps[1..], FromAssembly(a));
    assert ps == [ps[0]] + ps[1..];
    if ps[0].assembly == a {
      assert Filter(ps, FromAssembly(a)) == [ps[0]] + rest;
      if k == 0 {
        DropNone(ps, a);
        DropNone(ps[1..], a);
        assert RemoveFirst(ps, ps[0]) == ps[1..];
        assert DropFromAssembly(ps, a, 1) == ps[1..];
      } else {
        assert Filter(ps, FromAssembly(a))[k] == rest[k - 1];
        assert DropFromAssembly(ps, a, k) == DropFromAssembly(ps[1..], a, k - 1);
        assert DropFromAssembly(ps, a, k + 1) == DropFromAssembly(ps[1..], a, k);
        RemoveStep(ps[1..], a, k - 1);
      }
    } else {
      assert Filter(ps, FromAssembly(a)) == rest;
      var x := rest[k];
      assert x in rest;
      assert x.assembly == a;
      var d := DropFromAssembly(ps[1..], a, k);
      assert DropFromAssembly(ps, a, k) == [ps[0]] + d;
      assert ([ps[0]] + d)[0] == ps[0] && ([ps[0]] + d)[1..] == d;
      assert RemoveFirst([ps[0]] + d, x) == [ps[0]] + RemoveFirst(d, x);
      RemoveStep(ps[1..], a, k);
      assert DropFromAssembly(ps, a, k + 1) == [ps[0]] + DropFromAssembly(ps[1..], a, k + 1);
    }
  }

  /** What the loader holds: its plugins, the path of each loaded file with its assembly, and the next assembly number. */
  datatype Registry = Registry(plugins: seq<Plugin>, loaded: map<string, nat>, next: nat)

  /**
   * LoadPlugin(file) on a file that exists: a new ".dll" path whose bytes
   * hold a tool adds that tool, with the next assembly, and tracks the path;
   * anything else leaves the registry as it is.
   */
  function LoadStep(g: Registry, file: string, found: Option<PluginInfo>): Registry
  {
    if EndsWithIgnoreCase(file, ".dll") && file !in g.loaded && found.Some? then
      var p := Plugin(found.value.name, found.value.description, found.value.category, g.next);
      Registry(g.plugins + [p], g.loaded[file := g.next], g.next + 1)
    else g
  }

  /** The files loaded one after the other, in the order listed. */
  function LoadAll(g: Registry, files: seq<string>, found: string -> Option<PluginInfo>): Registry
    decreases |files|
  {
    if files == [] then g
    else
      var last := files[|files| - 1];
      LoadStep(LoadAll(g, files[..|files| - 1], found), last, found(last))
  }

  /**
   * Loading files keeps the plugins there were in front, and appends one
   * plugin per new assembly, the assemblies numbered on from the registry's
   * next number in the order of loading.
   */
  lemma {:induction false} LoadAllAppends(g: Registry, files: seq<string>, found: string -> Option<PluginInfo>)
    ensures var q := LoadAll(g, files, found);
      q.next >= g.next && |q.plugins| == |g.plugins| + (q.next - g.next) &&
      q.plugins[..|g.plugins|] == g.plugins &&
      forall k :: |g.plugins| <= k < |q.plugins| ==> q.plugins[k].assembly == g.next + (k - |g.plugins|)
    decreases |files|
  {
    if files != [] {
      LoadAllAppends(g, files[..|files| - 1], found);
    }
  }

  /** The paths tracked after loading: those tracked before and the listed ".dll" files holding a tool. */
  lemma {:induction false} LoadAllPaths(g: Registry, files: seq<string>, found: string -> Option<PluginInfo>)
    ensures var q := LoadAll(g, files, found);
      forall path :: path in q.loaded <==>
        path in g.loaded || (path in files && EndsWithIgnoreCase(path, ".dll") && found(path).Some?)
    decreases |files|
  {
    if files != [] {
      var init := files[..|files| - 1];
      LoadAllPaths(g, init, found);
      assert files == init + [files[|files| - 1]];
    }
  }

  /** A path tracked before keeps its assembly. */
  lemma {:induction false} LoadAllKeeps(g: Registry, files: seq<string>, found: string -> Option<PluginInfo>)
    ensures var q := LoadAll(g, files, found);
      forall path :: path in g.loaded ==> path in q.loaded && q.loaded[path] == g.loaded[path]
    decreases |files|
  {
    if files != [] {
      LoadAllKeeps(g, files[..|files| - 1], found);
    }
  }

  /**
   * From g to q one plugin was appended per new assembly, and each path q
   * tracks that g did not has a new assembly whose plugin is the path's tool.
   */
  ghost predicate NewFromFound(g: Registry, q: Registry, found: string -> Option<PluginInfo>)
  {
    g.next <= q.next && |q.plugins| == |g.plugins| + (q.next - g.next) &&
    forall path :: path in q.loaded && path !in g.loaded ==> ToolAt(g, q, path, found)
  }

  /** The path has an assembly q added after g, and q's plugin with that assembly is the path's tool. */
  ghost predicate ToolAt(g: Registry, q: Registry, path: string, found: string -> Option<PluginInfo>)
    requires path in q.loaded
  {
    g.next <= q.loaded[path] < q.next && found(path).Some? &&
    |g.plugins| + (q.loaded[path] - g.next) < |q.plugins| &&
    q.plugins[|g.plugins| + (q.loaded[path] - g.next)] ==
      Plugin(found(path).value.name, found(path).value.description, found(path).value.category, q.loaded[path])
  }

  /** A newly tracked path has a new assembly, and the plugin with that assembly is the path's tool. */
  lemma {:induction false} LoadAllNew(g: Registry, files: seq<string>, found: string -> Option<PluginInfo>)
    ensures NewFromFound(g, LoadAll(g, files, found), found)
    decreases |files|
  {
    if files != [] {
      var init := files[..|files| - 1];
      var last := files[|files| - 1];
      LoadAllNew(g, init, found);
      StepNew(g, LoadAll(g, init, found), last, found);
    }
  }

  /** One more file loaded keeps NewFromFound. */
  lemma StepNew(g: Registry, h: Registry, file: string, found: string -> Option<PluginInfo>)
    requires NewFromFound(g, h, found)
    ensures NewFromFound(g, LoadStep(h, file, found(file)), found)
  {
    var q := LoadStep(h, file, found(file));
    var f := found(file);
    if EndsWithIgnoreCase(file, ".dll") && file !in h.loaded && f.Some? {
      var p := Plugin(f.value.name, f.value.description, f.value.category, h.next);
      assert q.plugins == h.plugins + [p] && q.loaded == h.loaded[file := h.next] && q.next == h.next + 1;
      forall path | path in q.loaded && path !in g.loaded
        ensures ToolAt(g, q, path, found)
      {
        if path == file {
          assert q.plugins[|h.plugins|] == p;
        } else {
          assert ToolAt(g, h, path, found);
          var k := |g.plugins| + (h.loaded[path] - g.next);
          assert q.loaded[path] == h.loaded[path];
          assert q.plugins[k] == h.plugins[k];
        }
      }
    } else {
      assert q == h;
    }
  }

  lemma TakeOneMore(s: seq<Plugin>, i: nat)
    requires i < |s|
    ensures s[..i + 1] == s[..i] + [s[i]]
  {}

  class PluginLoader {
    /** _plugins. */
    var plugins: seq<Plugin>
    /** _loadedAssemblies, with the assembly of each path. */
    var loadedAssemblies: map<string, nat>
    /** The plugins Stop was called on. */
    var stopped: seq<Plugin>
    /** The number the next load context's assembly gets. */
    var nextAssembly: nat

    /**
     * Every plugin comes from an assembly a tracked path holds, no two paths
     * hold the same assembly, and assemblies are numbered below nextAssembly.
     */
    ghost predicate Valid()
      reads this
    {
      (forall p :: p in plugins ==> p.assembly in loadedAssemblies.Values) &&
      (forall path :: path in loadedAssemblies ==> loadedAssemblies[path] < nextAssembly) &&
      (forall x, y :: x in loadedAssemblies && y in loadedAssemblies && loadedAssemblies[x] == loadedAssemblies[y] ==> x == y)
    }

    constructor ()
      ensures plugins == [] && loadedAssemblies == map[] && stopped == [] && nextAssembly == 0
      ensures Valid()
    {
      plugins, loadedAssemblies, stopped, nextAssembly := [], map[], [], 0;
    }

    /**
     * LoadPlugin(byte[], filePath): a tracked path gives null; otherwise the
     * bytes are loaded in a new context, and the tool found is added and the
     * path mapped to the new assembly; nothing found gives null.
     */
    method LoadPluginFromBytes(filePath: string, found: Option<PluginInfo>) returns (r: Option<Plugin>)
      requires Valid()
      modifies this
      ensures Valid()
      ensures filePath in old(loadedAssemblies) || found.None? ==>
        r.None? && plugins == old(plugins) && loadedAssemblies == old(loadedAssemblies) && nextAssembly == old(nextAssembly)
      ensures filePath !in old(loadedAssemblies) && found.Some? ==>
        var p := Plugin(found.value.name, found.value.description, found.value.category, old(nextAssembly));
        r == Some(p) && plugins == old(plugins) + [p] &&
        loadedAssemblies == old(loadedAssemblies)[filePath := old(nextAssembly)] && nextAssembly == old(nextAssembly) + 1
      ensures stopped == old(stopped)
    {
      if filePath in loadedAssemblies {
        return None;
      }
      if found.None? {
        return None;
      }
      var assembly := nextAssembly;
      var plugin := Plugin(found.value.name, found.value.description, found.value.category, assembly);
      var old0 := loadedAssemblies;
      plugins := plugins + [plugin];
      loadedAssemblies := loadedAssemblies[filePath := assembly];
      nextAssembly := nextAssembly + 1;
      forall p | p in plugins ensures p.assembly in loadedAssemblies.Values {
        if p != plugin {
          var q :| q in old0 && old0[q] == p.assembly;
          assert loadedAssemblies[q] == p.assembly;
        } else {
          assert loadedAssemblies[filePath] == assembly;
        }
      }
      r := Some(plugin);
    }

    /**
     * LoadPlugin(filePath): a file that does not exist or whose name does
     * not end in ".dll", ignoring case, gives null; otherwise as the bytes
     * overload, with the file's bytes.
     */
    method LoadPlugin(filePath: string, fileExists: bool, found: Option<PluginInfo>) returns (r: Option<Plugin>)
      requires Valid()
      modifies this
      ensures Valid()
      ensures !fileExists || !EndsWithIgnoreCase(filePath, ".dll") || filePath in old(loadedAssemblies) || found.None? ==>
        r.None? && plugins == old(plugins) && loadedAssemblies == old(loadedAssemblies) && nextAssembly == old(nextAssembly)
      ensures fileExists && EndsWithIgnoreCase(filePath, ".dll") && filePath !in old(loadedAssemblies) && found.Some? ==>
        var p := Plugin(found.value.name, found.value.description, found.value.category, old(nextAssembly));
        r == Some(p) && plugins == old(plugins) + [p] &&
        loadedAssemblies == old(loadedAssemblies)[filePath := old(nextAssembly)] && nextAssembly == old(nextAssembly) + 1
      ensures stopped == old(stopped)
    {
      if !fileExists || !EndsWithIgnoreCase(filePath, ".dll") {
        return None;
      }
      r := LoadPluginFromBytes(filePath, found);
    }

    /**
     * LoadPlugins at start-up: every file the plugin directory lists is
     * loaded in turn; found gives what each file holds. The new state is the
     * files loaded one after the other (LoadAll); the plugins there were stay
     * in front, and one plugin follows for each new ".dll" file holding a
     * tool, numbered on in the order of the files.
     */
    method LoadPlugins(files: seq<string>, found: string -> Option<PluginInfo>)
      requires Valid()
      modifies this
      ensures Valid()
      ensures Registry(plugins, loadedAssemblies, nextAssembly) ==
        LoadAll(Registry(old(plugins), old(loadedAssemblies), old(nextAssembly)), files, found)
      ensures |old(plugins)| <= |plugins| && plugins[..|old(plugins)|] == old(plugins)
      ensures forall path :: path in loadedAssemblies <==>
        path in old(loadedAssemblies) || (path in files && EndsWithIgnoreCase(path, ".dll") && found(path).Some?)
      ensures forall p :: p in old(plugins) ==> p in plugins
      ensures stopped == old(stopped)
    {
      ghost var g0 := Registry(plugins, loadedAssemblies, nextAssembly);
      for i := 0 to |files|
        invariant Valid()
        invariant forall path :: path in loadedAssemblies <==>
          path in old(loadedAssemblies) || (path in files[..i] && EndsWithIgnoreCase(path, ".dll") && found(path).Some?)
        invariant forall p :: p in old(plugins) ==> p in plugins
        invariant stopped == old(stopped)
        invariant Registry(plugins, loadedAssemblies, nextAssembly) == LoadAll(g0, files[..i], found)
      {
        var _ := LoadPlugin(files[i], true, found(files[i]));
        assert files[..i + 1] == files[..i] + [files[i]];
        assert files[..i + 1][..i] == files[..i];
      }
      assert files[..|files|] == files;
      LoadAllAppends(g0, files, found);
    }

    /** One turn of the loop: Stop on the plugin, then List.Remove. */
    method StopAndRemoveOne(plugin: Plugin)
      modifies this
      ensures stopped == old(stopped) + [plugin] && plugins == RemoveFirst(old(plugins), plugin)
      ensures loadedAssemblies == old(loadedAssemblies) && nextAssembly == old(nextAssembly)
    {
      stopped := stopped + [plugin];
      plugins := RemoveFirst(plugins, plugin);
    }

    /** The loop of OnPluginRemoved: each plugin of the assembly, in list order, stopped and then removed. */
    method StopAndRemove(assembly: nat)
      modifies this
      ensures plugins == Filter(old(plugins), NotFromAssembly(assembly))
      ensures stopped == old(stopped) + Filter(old(plugins), FromAssembly(assembly))
      ensures loadedAssemblies == old(loadedAssemblies) && nextAssembly == old(nextAssembly)
    {
      var pluginsToRemove := Filter(plugins, FromAssembly(assembly));
      ghost var original := plugins;
      StopEach(pluginsToRemove, original, assembly);
      DropAll(original, assembly);
    }

    /** The loop itself: the plugins to remove, in order, each stopped and removed by value. */
    method StopEach(pluginsToRemove: seq<Plugin>, ghost original: seq<Plugin>, assembly: nat)
      requires plugins == original && pluginsToRemove == Filter(original, FromAssembly(assembly))
      modifies this
      ensures plugins == DropFromAssembly(original, assembly, |pluginsToRemove|)
      ensures stopped == old(stopped) + pluginsToRemove
      ensures loadedAssemblies == old(loadedAssemblies) && nextAssembly == old(nextAssembly)
    {
      DropNone(original, assembly);
      for i := 0 to |pluginsToRemove|
        invariant plugins == DropFromAssembly(original, assembly, i)
        invariant stopped == old(stopped) + pluginsToRemove[..i]
        invariant loadedAssemblies == old(loadedAssemblies) && nextAssembly == old(nextAssembly)
      {
        var plugin := pluginsToRemove[i];
        RemoveStep(original, assembly, i);
        StopAndRemoveOne(plugin);
        TakeOneMore(pluginsToRemove, i);
      }
      assert pluginsToRemove[..|pluginsToRemove|] == pluginsToRemove;
    }

    /**
     * OnPluginRemoved: for a tracked path, every plugin of its assembly is
     * stopped and removed from the list, and the path is no longer tracked;
     * an untracked path changes nothing.
     */
    method OnPluginRemoved(fullPath: string)
      requires Valid()
      modifies this
      ensures Valid()
      ensures fullPath !in old(loadedAssemblies) ==>
        plugins == old(plugins) && loadedAssemblies == old(loadedAssemblies) && stopped == old(stopped)
      ensures fullPath in old(loadedAssemblies) ==>
        var a := old(loadedAssemblies)[fullPath];
        plugins == Filter(old(plugins), NotFromAssembly(a)) &&
        stopped == old(stopped) + Filter(old(plugins), FromAssembly(a)) &&
        loadedAssemblies == old(loadedAssemblies) - {fullPath}
      ensures nextAssembly == old(nextAssembly)
    {
      if fullPath !in loadedAssemblies {
        return;
      }
      var assembly := loadedAssemblies[fullPath];
      StopAndRemove(assembly);
      var before := loadedAssemblies;
      loadedAssemblies := loadedAssemblies - {fullPath};
      forall p | p in plugins ensures p.assembly in loadedAssemblies.Values {
        assert p in old(plugins) && p.assembly != assembly;
        var q :| q in before && before[q] == p.assembly;
        assert q != fullPath;
        assert loadedAssemblies[q] == p.assembly;
      }
    }
  }
}
