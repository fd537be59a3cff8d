/**
 * The records of the host: tools, users and favourites, as the database
 * stores them, and the one filter every query of the host is built from.
 */
module Models {
  import opened Wrappers

  /** A row of the Tools table; a null string column is None. */
  datatype Tool = Tool(
    tid: int,
    toolName: Option<string>,
    description: Option<string>,
    enabled: bool,
    premiumRequired: bool,
    categoryName: Option<string>,
    fileName: Option<string>)

  /** A row of the Users table; the password hash and the e-mail are not part of this model. */
  datatype User = User(
    usid: int,
    username: Option<string>,
    premium: bool,
    isAdmin: bool,
    requestPremium: bool)

  /** A row of the Favorites table: the pair (usid, tid) is its key. */
  datatype Favorite = Favorite(usid: int, tid: int)

  /** The elements that satisfy p, in their order: LINQ's Where(...).ToList(). */
  function Filter<T(!new)>(s: seq<T>, p: T -> bool): (r: seq<T>)
    ensures |r| <= |s|
    ensures forall x :: x in r <==> x in s && p(x)
  {
    if s == [] then [] else (if p(s[0]) then [s[0]] else []) + Filter(s[1..], p)
  }

  /**
   * Filtering two runs one after the other is filtering each and putting the
   * results one after the other: the elements kept stay in their order.
   */
  lemma {:induction false} FilterAppend<T(!new)>(s: seq<T>, t: seq<T>, p: T -> bool)
    ensures Filter(s + t, p) == Filter(s, p) + Filter(t, p)
  {
    if s == [] {
      assert s + t == t;
    } else {
      var head := if p(s[0]) then [s[0]] else [];
      assert (s + t)[0] == s[0] && (s + t)[1..] == s[1..] + t;
      assert Filter(s + t, p) == head + Filter(s[1..] + t, p);
      FilterAppend(s[1..], t, p);
      assert Filter(s, p) == head + Filter(s[1..], p);
      assert head + (Filter(s[1..], p) + Filter(t, p)) == (head + Filter(s[1..], p)) + Filter(t, p);
    }
  }

  /** Filtering a sequence with one more element in front. */
  lemma FilterCons<T(!new)>(x: T, s: seq<T>, p: T -> bool)
    ensures Filter([x] + s, p) == (if p(x) then [x] else []) + Filter(s, p)
  {
    assert ([x] + s)[1..] == s;
  }

  /** The keys of the tools. */
  function ToolIds(ts: seq<Tool>): set<int>
  {
    set t | t in ts :: t.tid
  }

  /** The keys of the users. */
  function UserIds(us: seq<User>): set<int>
  {
    set u | u in us :: u.usid
  }

  /** No two tools share a key. */
  predicate ToolKeysUnique(ts: seq<Tool>)
  {
    forall i, j :: 0 <= i < j < |ts| ==> ts[i].tid != ts[j].tid
  }

  /** No two users share a key. */
  predicate UserKeysUnique(us: seq<User>)
  {
    forall i, j :: 0 <= i < j < |us| ==> us[i].usid != us[j].usid
  }

  /** Every favourite names a user and a tool that exist: the two foreign keys. */
  predicate ReferencesExist(favorites: set<Favorite>, ts: seq<Tool>, us: seq<User>)
  {
    forall f :: f in favorites ==> f.tid in ToolIds(ts) && f.usid in UserIds(us)
  }
}
