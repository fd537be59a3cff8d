/**
 * The tool, favourite and user repositories over the shared database
 * context. Queries are functions of the tables; changes are methods that
 * write the tables as SaveChanges would, with the constraints of the schema.
 *
 * Text comparisons are ordinal and case folding is ASCII-only: the server's
 * collation and the culture-sensitive string order are not part of this model.
 */
module Repositories {
  import opened Wrappers
  import opened Text
  import opened Models
  import opened Data

  // ---- ordering by category ----

  /** Ordinal order of strings: the first differing character decides, a proper prefix comes first. */
  predicate OrdinalLess(a: string, b: string)
  {
    if a == [] then b != []
    else if b == [] then false
    else a[0] < b[0] || (a[0] == b[0] && OrdinalLess(a[1..], b[1..]))
  }

  lemma {:induction false} OrdinalLessIrreflexive(a: string)
    ensures !OrdinalLess(a, a)
  {
    if a != [] {
      OrdinalLessIrreflexive(a[1..]);
    }
  }

  lemma {:induction false} OrdinalLessTransitive(a: string, b: string, c: string)
    requires OrdinalLess(a, b) && OrdinalLess(b, c)
    ensures OrdinalLess(a, c)
  {
    if a != [] && b != [] && c != [] && a[0] == b[0] == c[0] {
      OrdinalLessTransitive(a[1..], b[1..], c[1..]);
    }
  }

  lemma {:induction false} OrdinalLessTotal(a: string, b: string)
    requires a != b
    ensures OrdinalLess(a, b) || OrdinalLess(b, a)
  {
    if a != [] && b != [] && a[0] == b[0] {
      assert a == [a[0]] + a[1..] && b == [b[0]] + b[1..];
      OrdinalLessTotal(a[1..], b[1..]);
    }
  }

  /** The order OrderBy(t => t.category_name) sorts by: a null category first, then ordinal order. */
  predicate CategoryLess(a: Option<string>, b: Option<string>)
  {
    match (a, b)
    case (None, Some(_)) => true
    case (Some(x), Some(y)) => OrdinalLess(x, y)
    case _ => false
  }

  /** CategoryLess is a strict total order on categories. */
  lemma CategoryOrder(a: Option<string>, b: Option<string>, c: Option<string>)
    ensures !CategoryLess(a, a)
    ensures CategoryLess(a, b) && CategoryLess(b, c) ==> CategoryLess(a, c)
    ensures a != b ==> CategoryLess(a, b) || CategoryLess(b, a)
  {
    if a.Some? {
      OrdinalLessIrreflexive(a.value);
    }
    if a.Some? && b.Some? && c.Some? && CategoryLess(a, b) && CategoryLess(b, c) {
      OrdinalLessTransitive(a.value, b.value, c.value);
    }
    if a.Some? && b.Some? && a != b {
      OrdinalLessTotal(a.value, b.value);
    }
  }

  /** No tool comes after one with a greater category. */
  predicate SortedByCategory(ts: seq<Tool>)
  {
    forall i, j :: 0 <= i < j < |ts| ==> !CategoryLess(ts[j].categoryName, ts[i].categoryName)
  }

  /** t put before the first tool whose category is not smaller than its own. */
  function InsertByCategory(t: Tool, s: seq<Tool>): (r: seq<Tool>)
    ensures multiset(r) == multiset(s) + multiset{t}
    ensures SortedByCategory(s) ==> SortedByCategory(r)
  {
    if s == [] then [t]
    else if CategoryLess(s[0].categoryName, t.categoryName) then
      var rest := InsertByCategory(t, s[1..]);
      assert s == [s[0]] + s[1..];
      SmallestFirst(t, s, rest);
      [s[0]] + rest
    else
      LeastBefore(t, s);
      [t] + s
  }

  /** A tool not after the first of a sorted sequence can be put before it. */
  lemma LeastBefore(t: Tool, s: seq<Tool>)
    requires s != [] && !CategoryLess(s[0].categoryName, t.categoryName)
    ensures SortedByCategory(s) ==> SortedByCategory([t] + s)
  {
    if SortedByCategory(s) {
      forall k | 0 <= k < |s| ensures !CategoryLess(s[k].categoryName, t.categoryName) {
        CategoryOrder(s[0].categoryName, s[k].categoryName, t.categoryName);
        CategoryOrder(s[k].categoryName, s[0].categoryName, t.categoryName);
      }
    }
  }

  /** The first of a sorted sequence can go before the rest with a greater tool inserted. */
  lemma SmallestFirst(t: Tool, s: seq<Tool>, rest: seq<Tool>)
    requires s != [] && CategoryLess(s[0].categoryName, t.categoryName)
    requires multiset(rest) == multiset(s[1..]) + multiset{t}
    ensures SortedByCategory(s) && SortedByCategory(rest) ==> SortedByCategory([s[0]] + rest)
  {
    if SortedByCategory(s) && SortedByCategory(rest) {
      forall k | 0 <= k < |rest| ensures !CategoryLess(rest[k].categoryName, s[0].categoryName) {
        assert rest[k] in multiset(rest);
        if rest[k] == t {
          CategoryOrder(t.categoryName, s[0].categoryName, t.categoryName);
        } else {
          assert rest[k] in multiset(s[1..]);
          var j :| 0 <= j < |s[1..]| && s[1..][j] == rest[k];
          assert s[j + 1] == rest[k];
        }
      }
    }
  }

  /** GetAllTools: the table sorted by category, stably (OrderBy keeps the order of equal keys). */
  function ByCategory(ts: seq<Tool>): (r: seq<Tool>)
    ensures SortedByCategory(r)
    ensures multiset(r) == multiset(ts)
  {
    if ts == [] then []
    else
      assert ts == [ts[0]] + ts[1..];
      InsertByCategory(ts[0], ByCategory(ts[1..]))
  }

  /** The tools of one category. */
  function InCategory(c: Option<string>): Tool -> bool
  {
    (t: Tool) => t.categoryName == c
  }

  /** Inserting keeps, within each category, the inserted tool ahead of the others. */
  lemma {:induction false} InsertKeepsOrder(t: Tool, s: seq<Tool>, c: Option<string>)
    ensures Filter(InsertByCategory(t, s), InCategory(c)) == Filter([t] + s, InCategory(c))
  {
    if s != [] && CategoryLess(s[0].categoryName, t.categoryName) {
      var p := InCategory(c);
      var rest := InsertByCategory(t, s[1..]);
      assert InsertByCategory(t, s) == [s[0]] + rest;
      InsertKeepsOrder(t, s[1..], c);
      CategoryOrder(s[0].categoryName, t.categoryName, t.categoryName);
      assert s[0].categoryName != t.categoryName;
      var a, b := (if p(s[0]) then [s[0]] else []), (if p(t) then [t] else []);
      FilterCons(s[0], rest, p);
      FilterCons(t, s[1..], p);
      assert s == [s[0]] + s[1..];
      FilterCons(s[0], s[1..], p);
      FilterCons(t, s, p);
      SwapEmpty(a, b, Filter(s[1..], p));
    }
  }

  /** Two pieces of which one is empty can be swapped. */
  lemma SwapEmpty(a: seq<Tool>, b: seq<Tool>, x: seq<Tool>)
    requires a == [] || b == []
    ensures a + (b + x) == b + (a + x)
  {
    if a == [] {
      assert a + (b + x) == b + x == b + (a + x);
    } else {
      assert a + (b + x) == a + x == b + (a + x);
    }
  }

  /** A filter of a sorted sequence is sorted. */
  lemma {:induction false} FilterSorted(ts: seq<Tool>, p: Tool -> bool)
    ensures SortedByCategory(ts) ==> SortedByCategory(Filter(ts, p))
  {
    if ts != [] && SortedByCategory(ts) {
      var rest := Filter(ts[1..], p);
      FilterSorted(ts[1..], p);
      FilterCons(ts[0], ts[1..], p);
      assert ts == [ts[0]] + ts[1..];
      if p(ts[0]) {
        var r := [ts[0]] + rest;
        forall i, j | 0 <= i < j < |r| ensures !CategoryLess(r[j].categoryName, r[i].categoryName) {
          if i == 0 {
            assert r[j] in rest;
            var k :| 0 <= k < |ts[1..]| && ts[1..][k] == r[j];
            assert ts[k + 1] == r[j];
          } else {
            assert r[i] == rest[i - 1] && r[j] == rest[j - 1];
          }
        }
      }
    }
  }

  /** The sort is stable: the tools of any one category keep their table order. */
  lemma {:induction false} ByCategoryStable(ts: seq<Tool>, c: Option<string>)
    ensures Filter(ByCategory(ts), InCategory(c)) == Filter(ts, InCategory(c))
  {
    if ts != [] {
      ByCategoryStable(ts[1..], c);
      InsertKeepsOrder(ts[0], ByCategory(ts[1..]), c);
      FilterCons(ts[0], ByCategory(ts[1..]), InCategory(c));
      FilterCons(ts[0], ts[1..], InCategory(c));
      assert ts == [ts[0]] + ts[1..];
    }
  }

  // ---- lookups ----

  /** Tools.Find(id): the tool with that key. */
  function FindById(ts: seq<Tool>, id: int): (r: Option<Tool>)
    ensures r.Some? ==> r.value in ts && r.value.tid == id
    ensures r.None? <==> id !in ToolIds(ts)
  {
    if ts == [] then None
    else if ts[0].tid == id then Some(ts[0])
    else
      assert ToolIds(ts) == {ts[0].tid} + ToolIds(ts[1..]) by {
        assert ts == [ts[0]] + ts[1..];
      }
      FindById(ts[1..], id)
  }

  /** The tool named toolName, compared after both are put in lower case; a null name never matches. */
  predicate NamedAs(t: Tool, toolName: string)
  {
    t.toolName.Some? && ToLower(t.toolName.value) == ToLower(toolName)
  }

  /** Index i holds the first tool with that name. */
  predicate FirstNamedAt(ts: seq<Tool>, toolName: string, i: int)
  {
    0 <= i < |ts| && NamedAs(ts[i], toolName) && forall k :: 0 <= k < i ==> !NamedAs(ts[k], toolName)
  }

  /** FirstOrDefault over the table: the first tool with that name. */
  function FirstNamed(ts: seq<Tool>, toolName: string): (r: Option<Tool>)
    ensures r.None? <==> forall i :: 0 <= i < |ts| ==> !NamedAs(ts[i], toolName)
    ensures r.Some? ==> exists i :: FirstNamedAt(ts, toolName, i) && ts[i] == r.value
  {
    if ts == [] then None
    else if NamedAs(ts[0], toolName) then
      assert FirstNamedAt(ts, toolName, 0);
      Some(ts[0])
    else
      var r := FirstNamed(ts[1..], toolName);
      if r.Some? then
        FirstNamedLater(ts, toolName, r.value);
        r
      else
        assert forall i :: 1 <= i < |ts| ==> ts[i] == ts[1..][i - 1];
        r
  }

  lemma FirstNamedLater(ts: seq<Tool>, toolName: string, v: Tool)
    requires ts != [] && !NamedAs(ts[0], toolName)
    requires exists i :: FirstNamedAt(ts[1..], toolName, i) && ts[1..][i] == v
    ensures exists i :: FirstNamedAt(ts, toolName, i) && ts[i] == v
  {
    var i :| FirstNamedAt(ts[1..], toolName, i) && ts[1..][i] == v;
    assert forall k :: 1 <= k < i + 1 ==> ts[k] == ts[1..][k - 1];
    assert FirstNamedAt(ts, toolName, i + 1);
  }

  /** Upper and lower case of a name find the same tool. */
  lemma FirstNamedIgnoresCase(ts: seq<Tool>, toolName: string)
    ensures FirstNamed(ts, ToUpper(toolName)) == FirstNamed(ts, toolName)
  {
    ToLowerOfUpper(toolName);
    assert forall t :: NamedAs(t, ToUpper(toolName)) == NamedAs(t, toolName);
    FirstNamedSame(ts, ToUpper(toolName), toolName);
  }

  lemma {:induction false} FirstNamedSame(ts: seq<Tool>, a: string, b: string)
    requires ToLower(a) == ToLower(b)
    ensures FirstNamed(ts, a) == FirstNamed(ts, b)
  {
    if ts != [] {
      FirstNamedSame(ts[1..], a, b);
    }
  }

  function IsEnabled(t: Tool): bool
  {
    t.enabled
  }

  /** The table, or its enabled tools only. */
  function Visible(ts: seq<Tool>, enabledOnly: bool): (r: seq<Tool>)
    ensures forall t :: t in r <==> t in ts && (enabledOnly ==> t.enabled)
  {
    if enabledOnly then Filter(ts, IsEnabled) else ts
  }

  /** The names of the non-empty categories. */
  function Categories(ts: seq<Tool>): set<string>
  {
    set t | t in ts && t.categoryName.Some? && t.categoryName.value != "" :: t.categoryName.value
  }

  /** GroupBy(category_name) over the tools with a category, into a dictionary. */
  function Grouped(ts: seq<Tool>): (r: map<string, seq<Tool>>)
    ensures r.Keys == Categories(ts)
    ensures forall c :: c in r ==> forall t :: t in r[c] <==> t in ts && t.categoryName == Some(c)
  {
    map c | c in Categories(ts) :: Filter(ts, InCategory(Some(c)))
  }

  /** Name or description contains the query; a null column never does. */
  predicate Matches(t: Tool, query: string)
  {
    (t.toolName.Some? && Contains(t.toolName.value, query)) ||
    (t.description.Some? && Contains(t.description.value, query))
  }

  /** Every tool with that key replaced by the given one. */
  function ReplaceTool(ts: seq<Tool>, tool: Tool): (r: seq<Tool>)
    ensures |r| == |ts|
    ensures forall i :: 0 <= i < |ts| ==> r[i] == if ts[i].tid == tool.tid then tool else ts[i]
  {
    seq(|ts|, i requires 0 <= i < |ts| => if ts[i].tid == tool.tid then tool else ts[i])
  }

  /** Replacing a tool by one with the same key keeps the keys. */
  lemma ReplaceToolKeys(ts: seq<Tool>, tool: Tool)
    ensures ToolIds(ReplaceTool(ts, tool)) == ToolIds(ts)
    ensures ToolKeysUnique(ts) ==> ToolKeysUnique(ReplaceTool(ts, tool))
  {
    var r := ReplaceTool(ts, tool);
    forall x | x in ToolIds(r) ensures x in ToolIds(ts) {
      var i :| 0 <= i < |r| && r[i].tid == x;
      assert ts[i] in ts;
    }
    forall x | x in ToolIds(ts) ensures x in ToolIds(r) {
      var i :| 0 <= i < |ts| && ts[i].tid == x;
      assert r[i] in r;
    }
  }

  /** The tools other than the one with key id. */
  function WithoutTool(ts: seq<Tool>, id: int): (r: seq<Tool>)
    ensures forall t :: t in r <==> t in ts && t.tid != id
    ensures ToolIds(r) == ToolIds(ts) - {id}
    ensures ToolKeysUnique(ts) ==> ToolKeysUnique(r)
  {
    var r := Filter(ts, (t: Tool) => t.tid != id);
    FilterToolKeysUnique(ts, (t: Tool) => t.tid != id);
    assert forall x :: x in ToolIds(r) <==> x in ToolIds(ts) - {id} by {
      forall x | x in ToolIds(ts) - {id} ensures x in ToolIds(r) {
        var t :| t in ts && t.tid == x;
        assert t in r;
      }
    }
    r
  }

  /** A filter keeps the tool keys unique. */
  lemma {:induction false} FilterToolKeysUnique(ts: seq<Tool>, p: Tool -> bool)
    ensures ToolKeysUnique(ts) ==> ToolKeysUnique(Filter(ts, p))
  {
    if ts != [] && ToolKeysUnique(ts) {
      var rest := Filter(ts[1..], p);
      FilterToolKeysUnique(ts[1..], p);
      FilterCons(ts[0], ts[1..], p);
      assert ts == [ts[0]] + ts[1..];
      if p(ts[0]) {
        var r := [ts[0]] + rest;
        forall i, j | 0 <= i < j < |r| ensures r[i].tid != r[j].tid {
          if i == 0 {
            assert r[j] in rest;
            var k :| 0 <= k < |ts[1..]| && ts[1..][k] == r[j];
            assert ts[k + 1] == r[j];
          } else {
            assert r[i] == rest[i - 1] && r[j] == rest[j - 1];
          }
        }
      }
    }
  }

  /** The favourites that do not name tool id. */
  function FavouritesWithoutTool(favorites: set<Favorite>, id: int): (r: set<Favorite>)
    ensures forall f :: f in r <==> f in favorites && f.tid != id
  {
    set f | f in favorites && f.tid != id
  }

  /** The favourites that do not name user id. */
  function FavouritesWithoutUser(favorites: set<Favorite>, id: int): (r: set<Favorite>)
    ensures forall f :: f in r <==> f in favorites && f.usid != id
  {
    set f | f in favorites && f.usid != id
  }

  class ToolRepository {
    const db: AppDbContext

    constructor (db: AppDbContext)
      ensures this.db == db
    {
      this.db := db;
    }

    /** The table ordered by category: sorted, with the same tools. */
    function GetAllTools(): (r: seq<Tool>)
      reads db
      ensures SortedByCategory(r) && multiset(r) == multiset(db.tools)
    {
      ByCategory(db.tools)
    }

    /** The tool with key id, or null. */
    function GetToolById(id: int): (r: Option<Tool>)
      reads db
      ensures r.Some? ==> r.value in db.tools && r.value.tid == id
      ensures r.None? <==> id !in ToolIds(db.tools)
    {
      FindById(db.tools, id)
    }

    /** The first tool whose name equals toolName ignoring case, or null. */
    function GetToolByName(toolName: string): (r: Option<Tool>)
      reads db
      ensures r.None? <==> forall t :: t in db.tools ==> !NamedAs(t, toolName)
      ensures r.Some? ==> r.value in db.tools && NamedAs(r.value, toolName)
    {
      FirstNamed(db.tools, toolName)
    }

    /** The (enabled) tools with a non-empty category, grouped by it. */
    function GetToolsByCategory(enabledOnly: bool): (r: map<string, seq<Tool>>)
      reads db
      ensures forall c :: c in r <==> exists t :: t in db.tools && (enabledOnly ==> t.enabled) && t.categoryName == Some(c) && c != ""
      ensures forall c :: c in r ==> forall t :: t in r[c] <==>
        t in db.tools && (enabledOnly ==> t.enabled) && t.categoryName == Some(c)
    {
      var q := Visible(db.tools, enabledOnly);
      var r := Grouped(q);
      assert forall c :: c in r <==> c in Categories(q);
      r
    }

    /** The (enabled) tools whose name or description contains query. */
    function SearchTools(query: string, enabledOnly: bool): (r: seq<Tool>)
      reads db
      ensures forall t :: t in r <==> t in db.tools && (enabledOnly ==> t.enabled) && Matches(t, query)
    {
      Filter(Visible(db.tools, enabledOnly), (t: Tool) => Matches(t, query))
    }

    /**
     * Tools.Add and SaveChanges: a key of 0 is generated by the database,
     * another key is stored as it is unless a tool already has it.
     */
    method AddTool(tool: Tool) returns (r: Result<Tool>)
      requires db.Valid()
      modifies db
      ensures db.Valid()
      ensures tool.tid != 0 && tool.tid in ToolIds(old(db.tools)) ==>
        r == Error(ConstraintViolated) && db.tools == old(db.tools) && db.nextTid == old(db.nextTid)
      ensures tool.tid == 0 ==> r == Ok(tool.(tid := old(db.nextTid)))
      ensures tool.tid != 0 && tool.tid !in ToolIds(old(db.tools)) ==> r == Ok(tool)
      ensures r.Ok? ==> db.tools == old(db.tools) + [r.value] && r.value.tid !in ToolIds(old(db.tools))
      ensures db.users == old(db.users) && db.favorites == old(db.favorites)
    {
      if tool.tid == 0 {
        var stored := tool.(tid := db.nextTid);
        assert stored.tid !in ToolIds(db.tools);
        db.tools := db.tools + [stored];
        db.nextTid := db.nextTid + 1;
        r := Ok(stored);
      } else if tool.tid in ToolIds(db.tools) {
        r := Error(ConstraintViolated);
      } else {
        db.tools := db.tools + [tool];
        if db.nextTid <= tool.tid {
          db.nextTid := tool.tid + 1;
        }
        r := Ok(tool);
      }
      assert ToolIds(db.tools) >= ToolIds(old(db.tools));
    }

    /** Entry(tool).State = Modified and SaveChanges: the row with the tool's key is overwritten. */
    method UpdateTool(tool: Tool) returns (r: Outcome)
      requires db.Valid()
      modifies db
      ensures db.Valid()
      ensures tool.tid in ToolIds(old(db.tools)) ==> r == Done && db.tools == ReplaceTool(old(db.tools), tool)
      ensures tool.tid !in ToolIds(old(db.tools)) ==> r == Thrown(NoRowAffected) && db.tools == old(db.tools)
      ensures db.users == old(db.users) && db.favorites == old(db.favorites) && db.nextTid == old(db.nextTid)
    {
      if tool.tid in ToolIds(db.tools) {
        ReplaceToolKeys(db.tools, tool);
        db.tools := ReplaceTool(db.tools, tool);
        r := Done;
      } else {
        r := Thrown(NoRowAffected);
      }
    }

    /** Find, Remove and SaveChanges; the favourites of the tool go with it (cascading delete). */
    method DeleteTool(id: int)
      requires db.Valid()
      modifies db
      ensures db.Valid()
      ensures id !in ToolIds(old(db.tools)) ==> db.tools == old(db.tools) && db.favorites == old(db.favorites)
      ensures id in ToolIds(old(db.tools)) ==>
        db.tools == WithoutTool(old(db.tools), id) && db.favorites == FavouritesWithoutTool(old(db.favorites), id)
      ensures db.users == old(db.users) && db.nextTid == old(db.nextTid)
    {
      var tool := GetToolById(id);
      if tool.Some? {
        db.tools := WithoutTool(db.tools, id);
        db.favorites := FavouritesWithoutTool(db.favorites, id);
      }
    }
  }

  class FavouriteRepository {
    const db: AppDbContext

    constructor (db: AppDbContext)
      ensures this.db == db
    {
      this.db := db;
    }

    /** The enabled tools this user marked as favourite, in table order. */
    function GetFavouriteToolsByUserId(userId: int): (r: seq<Tool>)
      reads db
      ensures forall t :: t in r <==> t in db.tools && t.enabled && Favorite(userId, t.tid) in db.favorites
    {
      var ids := set f | f in db.favorites && f.usid == userId :: f.tid;
      Filter(db.tools, (t: Tool) => t.tid in ids && t.enabled)
    }

    /** Any row with this pair. */
    function IsFavourite(userId: int, toolId: int): (r: bool)
      reads db
      ensures r <==> Favorite(userId, toolId) in db.favorites
    {
      Favorite(userId, toolId) in db.favorites
    }

    /** Favorites.Add and SaveChanges: a pair already there, or a missing user or tool, violates the schema. */
    method AddToFavourites(userId: int, toolId: int) returns (r: Outcome)
      requires db.Valid()
      modifies db
      ensures db.Valid()
      ensures var f := Favorite(userId, toolId);
        if f !in old(db.favorites) && toolId in ToolIds(db.tools) && userId in UserIds(db.users)
        then r == Done && db.favorites == old(db.favorites) + {f}
        else r == Thrown(ConstraintViolated) && db.favorites == old(db.favorites)
      ensures db.tools == old(db.tools) && db.users == old(db.users) && db.nextTid == old(db.nextTid)
    {
      var f := Favorite(userId, toolId);
      if f !in db.favorites && toolId in ToolIds(db.tools) && userId in UserIds(db.users) {
        db.favorites := db.favorites + {f};
        r := Done;
      } else {
        r := Thrown(ConstraintViolated);
      }
    }

    /** The row with this pair removed, when there is one. */
    method RemoveFromFavourites(userId: int, toolId: int)
      requires db.Valid()
      modifies db
      ensures db.Valid()
      ensures db.favorites == old(db.favorites) - {Favorite(userId, toolId)}
      ensures db.tools == old(db.tools) && db.users == old(db.users) && db.nextTid == old(db.nextTid)
    {
      var f := Favorite(userId, toolId);
      if f in db.favorites {
        db.favorites := db.favorites - {f};
      }
    }

    /** Every row of this user removed (RemoveRange). */
    method RemoveFromFavouritesByUserId(userId: int)
      requires db.Valid()
      modifies db
      ensures db.Valid()
      ensures db.favorites == FavouritesWithoutUser(old(db.favorites), userId)
      ensures db.tools == old(db.tools) && db.users == old(db.users) && db.nextTid == old(db.nextTid)
    {
      db.favorites := FavouritesWithoutUser(db.favorites, userId);
    }

    /** Every row of this tool removed (RemoveRange). */
    method RemoveFromFavouritesByToolId(toolId: int)
      requires db.Valid()
      modifies db
      ensures db.Valid()
      ensures db.favorites == FavouritesWithoutTool(old(db.favorites), toolId)
      ensures db.tools == old(db.tools) && db.users == old(db.users) && db.nextTid == old(db.nextTid)
    {
      db.favorites := FavouritesWithoutTool(db.favorites, toolId);
    }
  }

  /** Users.Find(id): the user with that key. */
  function FindUser(us: seq<User>, id: int): (r: Option<User>)
    ensures r.Some? ==> r.value in us && r.value.usid == id
    ensures r.None? <==> id !in UserIds(us)
  {
    if us == [] then None
    else if us[0].usid == id then Some(us[0])
    else
      assert UserIds(us) == {us[0].usid} + UserIds(us[1..]) by {
        assert us == [us[0]] + us[1..];
      }
      FindUser(us[1..], id)
  }

  /** Every user with that key replaced by the given one. */
  function ReplaceUser(us: seq<User>, user: User): (r: seq<User>)
    ensures |r| == |us|
    ensures forall i :: 0 <= i < |us| ==> r[i] == if us[i].usid == user.usid then user else us[i]
  {
    seq(|us|, i requires 0 <= i < |us| => if us[i].usid == user.usid then user else us[i])
  }

  lemma ReplaceUserKeys(us: seq<User>, user: User)
    ensures UserIds(ReplaceUser(us, user)) == UserIds(us)
    ensures UserKeysUnique(us) ==> UserKeysUnique(ReplaceUser(us, user))
  {
    var r := ReplaceUser(us, user);
    forall x | x in UserIds(r) ensures x in UserIds(us) {
      var i :| 0 <= i < |r| && r[i].usid == x;
      assert us[i] in us;
    }
    forall x | x in UserIds(us) ensures x in UserIds(r) {
      var i :| 0 <= i < |us| && us[i].usid == x;
      assert r[i] in r;
    }
  }

  /** The users other than the one with key id. */
  function WithoutUser(us: seq<User>, id: int): (r: seq<User>)
    ensures forall u :: u in r <==> u in us && u.usid != id
    ensures UserIds(r) == UserIds(us) - {id}
    ensures UserKeysUnique(us) ==> UserKeysUnique(r)
  {
    var r := Filter(us, (u: User) => u.usid != id);
    FilterUserKeysUnique(us, (u: User) => u.usid != id);
    assert forall x :: x in UserIds(r) <==> x in UserIds(us) - {id} by {
      forall x | x in UserIds(us) - {id} ensures x in UserIds(r) {
        var u :| u in us && u.usid == x;
        assert u in r;
      }
    }
    r
  }

  /** A filter keeps the user keys unique. */
  lemma {:induction false} FilterUserKeysUnique(us: seq<User>, p: User -> bool)
    ensures UserKeysUnique(us) ==> UserKeysUnique(Filter(us, p))
  {
    if us != [] && UserKeysUnique(us) {
      var rest := Filter(us[1..], p);
      FilterUserKeysUnique(us[1..], p);
      FilterCons(us[0], us[1..], p);
      assert us == [us[0]] + us[1..];
      if p(us[0]) {
        var r := [us[0]] + rest;
        forall i, j | 0 <= i < j < |r| ensures r[i].usid != r[j].usid {
          if i == 0 {
            assert r[j] in rest;
            var k :| 0 <= k < |us[1..]| && us[1..][k] == r[j];
            assert us[k + 1] == r[j];
          } else {
            assert r[i] == rest[i - 1] && r[j] == rest[j - 1];
          }
        }
      }
    }
  }

  /** The user operations the admin pages use. */
  class UserRepository {
    const db: AppDbContext

    constructor (db: AppDbContext)
      ensures this.db == db
    {
      this.db := db;
    }

    function GetAllUsers(): (r: seq<User>)
      reads db
      ensures r == db.users
    {
      db.users
    }

    /** The user with key id, or null. */
    function GetUserById(id: int): (r: Option<User>)
      reads db
      ensures r.Some? ==> r.value in db.users && r.value.usid == id
      ensures r.None? <==> id !in UserIds(db.users)
    {
      FindUser(db.users, id)
    }

    /** The row with the user's key overwritten. */
    method UpdateUser(user: User) returns (r: Outcome)
      requires db.Valid()
      modifies db
      ensures db.Valid()
      ensures user.usid in UserIds(old(db.users)) ==> r == Done && db.users == ReplaceUser(old(db.users), user)
      ensures user.usid !in UserIds(old(db.users)) ==> r == Thrown(NoRowAffected) && db.users == old(db.users)
      ensures db.tools == old(db.tools) && db.favorites == old(db.favorites) && db.nextTid == old(db.nextTid)
    {
      if user.usid in UserIds(db.users) {
        ReplaceUserKeys(db.users, user);
        db.users := ReplaceUser(db.users, user);
        r := Done;
      } else {
        r := Thrown(NoRowAffected);
      }
    }

    /** Find, Remove and SaveChanges; the user's favourites go with it (cascading delete). */
    method DeleteUser(id: int)
      requires db.Valid()
      modifies db
      ensures db.Valid()
      ensures id !in UserIds(old(db.users)) ==> db.users == old(db.users) && db.favorites == old(db.favorites)
      ensures id in UserIds(old(db.users)) ==>
        db.users == WithoutUser(old(db.users), id) && db.favorites == FavouritesWithoutUser(old(db.favorites), id)
      ensures db.tools == old(db.tools) && db.nextTid == old(db.nextTid)
    {
      var user := GetUserById(id);
      if user.Some? {
        db.users := WithoutUser(db.users, id);
        db.favorites := FavouritesWithoutUser(db.favorites, id);
      }
    }
  }
}
