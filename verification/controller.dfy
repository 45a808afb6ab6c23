/**
 The parts of the base controller that decide something: the controller and
 entity names, the access profile of the current user and the permission
 test, the default sort order, the configuration merge, and the blank row the
 list screen puts first.
 */
module Controller {
  import opened PhpValue
  import opened Strings
  import opened Assoc

  /** The actions a profile grants or denies, in the order the profile lists them. */
  const Permissions: seq<string> := ["acc", "ins", "del", "upd", "exp"]

  /** The template shown when access is denied. */
  const ForbiddenTemplate := "../../smarty/templates/forbiden.html"

  /** Access rules by user profile: profile name to (permission or `*`) to value. */
  type Profiles = map<string, map<string, Value>>

  // ------------------------------------------------------------------ names

  /** The controller name: the class name with every `Controller` removed. */
  function ControllerName(className: string): (r: string)
    ensures !Contains(className, "Controller") ==> r == className
  {
    assert !Contains(className, "Controller") ==> RemoveAll(className, "Controller") == className by {
      if !Contains(className, "Controller") { RemoveAllAbsent(className, "Controller"); }
    }
    RemoveAll(className, "Controller")
  }

  /** A class named `<n>Controller` is the controller `<n>`, whenever `n` itself has no `Controller`. */
  lemma ControllerNameDropsSuffix(n: string)
    requires !Contains(n, "Controller")
    ensures ControllerName(n + "Controller") == n
  {
    RemoveAllTrailing(n, "Controller");
  }

  /** The entity a controller works on: its declared one, or its own name when that is blank. */
  function EntityName(declared: Value, className: string): (r: Value)
    ensures !IsBlank(declared) ==> r == declared
    ensures IsBlank(declared) ==> r == Str(ControllerName(className))
  {
    if IsBlank(declared) then Str(ControllerName(className)) else declared
  }

  /** `FamiliasController` works on `Familias`. */
  lemma NameOfFamiliasController()
    ensures ControllerName("FamiliasController") == "Familias"
    ensures EntityName(Null, "FamiliasController") == Str("Familias")
  {
    var tail := "Controller";
    assert tail + "" == tail;
    RemoveAllLeading(tail, "");
    assert "FamiliasController" == "Familias" + tail;
    RemoveAllPrefix("Familias", tail, "Controller");
    assert "Familias" + "" == "Familias";
  }

  // ---------------------------------------------------------------- profile

  /**
   The value a profile grants for one permission: the specific entry when it
   is set (not NULL), else the profile's `*` entry, else NULL.
   */
  function Grant(profiles: Profiles, user: string, permission: string): Value {
    if user in profiles && permission in profiles[user] && profiles[user][permission] != Null then
      profiles[user][permission]
    else if user in profiles && "*" in profiles[user] then profiles[user]["*"]
    else Null
  }

  /**
   `getProfile` for the user profile `user`: one entry per permission, every
   one true when no profiles are configured.
   */
  function GetProfile(profiles: Profiles, user: string): (r: Assoc<string, Value>)
    ensures Keys(r) == Permissions && Keyed(r)
    ensures forall k :: 0 <= k < |r| ==>
      r[k].1 == if |profiles| == 0 then Bool(true) else Grant(profiles, user, Permissions[k])
  {
    seq(|Permissions|, k requires 0 <= k < |Permissions| =>
      (Permissions[k], if |profiles| == 0 then Bool(true) else Grant(profiles, user, Permissions[k])))
  }

  /** `isAllow`: the action's entry is truthy, or it is unset and the `*` entry is truthy. */
  predicate IsAllow(profile: Assoc<string, Value>, action: string) {
    var own := if Lookup(profile, action).Some? then Lookup(profile, action).value else Null;
    var star := if Lookup(profile, "*").Some? then Lookup(profile, "*").value else Null;
    Truthy(own) || (own == Null && Truthy(star))
  }

  /**
   On a profile built by `getProfile`, an action is allowed iff it is one of
   the five permissions and its grant is truthy; with no profiles configured,
   iff it is one of the five. The `*` test of `isAllow` never applies, because
   the profile has no `*` entry.
   */
  lemma AllowedIffGranted(profiles: Profiles, user: string, action: string)
    ensures IsAllow(GetProfile(profiles, user), action) <==>
      action in Permissions && (|profiles| == 0 || Truthy(Grant(profiles, user, action)))
  {
    var p := GetProfile(profiles, user);
    assert "*" !in Keys(p);
    if action in Permissions {
      var k :| 0 <= k < |Permissions| && Permissions[k] == action;
      LookupEntry(p, k);
    }
  }

  /** An explicit false for an action wins over a `*` that grants everything. */
  lemma ExplicitDenialWins(profiles: Profiles, user: string)
    requires user in profiles && profiles[user] == map["*" := Bool(true), "del" := Bool(false)]
    ensures !IsAllow(GetProfile(profiles, user), "del")
    ensures IsAllow(GetProfile(profiles, user), "acc")
  {
    AllowedIffGranted(profiles, user, "del");
    AllowedIffGranted(profiles, user, "acc");
  }

  // ---------------------------------------------------------------- config

  /** The configured value of `key`, NULL when it is not set. */
  function ConfigValue(config: Assoc<string, Value>, key: string): Value {
    if Lookup(config, key).Some? then Lookup(config, key).value else Null
  }

  /**
   `getConfig`: the controller's configuration merged over the global one, so
   the controller's entry wins on a shared key.
   */
  function GetConfig(global: Assoc<string, Value>, own: Assoc<string, Value>): (r: Assoc<string, Value>)
    requires Keyed(own)
    ensures Keyed(global) ==> Keyed(r)
    ensures forall k :: ConfigValue(r, k) == if Lookup(own, k).Some? then ConfigValue(own, k) else ConfigValue(global, k)
  {
    Merge(global, own)
  }

  /** The sort order: the request's when truthy, otherwise the configured `orderBy`. */
  function DefaultOrderBy(requested: Value, config: Assoc<string, Value>): (r: Value)
    ensures Truthy(requested) ==> r == requested
    ensures !Truthy(requested) ==> r == ConfigValue(config, "orderBy")
  {
    if Truthy(requested) then requested else ConfigValue(config, "orderBy")
  }

  /** Defaulting the sort order a second time changes nothing. */
  lemma DefaultOrderByIdempotent(requested: Value, config: Assoc<string, Value>)
    ensures DefaultOrderBy(DefaultOrderBy(requested, config), config) == DefaultOrderBy(requested, config)
  {
    if !Truthy(requested) && !Truthy(ConfigValue(config, "orderBy")) {
      assert DefaultOrderBy(requested, config) == ConfigValue(config, "orderBy");
    }
  }

  // ------------------------------------------------------------- list form

  /** The template `listFormAction` renders. */
  function ListTemplate(controllerName: string, profile: Assoc<string, Value>): (r: string)
    ensures IsAllow(profile, "acc") ==> r == controllerName + "/listForm.html"
    ensures !IsAllow(profile, "acc") ==> r == ForbiddenTemplate
  {
    if IsAllow(profile, "acc") then controllerName + "/listForm.html" else ForbiddenTemplate
  }

  /** A row with the keys of `row`, in order, every value the empty string. */
  function BlankRow(row: Assoc<string, Value>): (r: Assoc<string, Value>)
    ensures Keys(r) == Keys(row)
    ensures forall k :: 0 <= k < |r| ==> r[k].1 == Str("")
  {
    seq(|row|, k requires 0 <= k < |row| => (row[k].0, Str("")))
  }

  /**
   The page's rows with a blank row first, for entering a new record; the
   blank row copies the keys of the first row, and is NULL when the page is
   empty.
   */
  function PrependBlankRow(data: seq<Assoc<string, Value>>): (r: seq<Option<Assoc<string, Value>>>)
    ensures |r| == |data| + 1
    ensures forall k :: 0 <= k < |data| ==> r[k + 1] == Some(data[k])
    ensures |data| == 0 ==> r[0] == None
    ensures |data| > 0 ==> (r[0].Some? && Keys(r[0].value) == Keys(data[0]) &&
      forall k :: 0 <= k < |r[0].value| ==> r[0].value[k].1 == Str(""))
  {
    var first := if |data| == 0 then None else Some(BlankRow(data[0]));
    [first] + seq(|data|, k requires 0 <= k < |data| => Some(data[k]))
  }
}
