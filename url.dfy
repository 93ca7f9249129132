/**
 * `buildSearchUrl` (src/lib/url.ts): merge a list of updates into a copy of the
 * current search parameters, deleting keys whose new value is a default, and
 * serialise the result as `""` or `"?" + query string`.
 */
module Url {

  import opened Wrappers
  import opened Ecma
  import opened SearchParams

  /** A value of the `updates` record: a string, a number or a boolean. */
  datatype Value = Str(s: string) | Num(n: Number) | Bool(b: bool)

  /** One entry of `Object.entries(updates)`. */
  type Update = (string, Value)

  /** `Number(value)` */
  function ToNumber(v: Value): Number {
    match v
    case Str(s) => StringToNumber(s)
    case Num(n) => n
    case Bool(b) => Int(if b then 1 else 0)
  }

  /** `value.toString()` */
  function ToText(v: Value): string {
    match v
    case Str(s) => s
    case Num(n) => NumberToText(n)
    case Bool(b) => if b then "true" else "false"
  }

  /** `options?.defaultPageSize ?? 15` */
  function DefaultPageSize(options: Option<Number>): Number {
    options.GetOr(Int(15))
  }

  /**
   * The rule deciding which updates delete their key. `AsWritten` is the rule of
   * `buildSearchUrl`, where the sentinel `"All"` deletes any key; `Intended` keeps
   * the sentinel to the `region` key, the only key whose default it is.
   */
  datatype Rule = AsWritten(defaultPageSize: Number) | Intended(defaultPageSize: Number)

  predicate Elides(rule: Rule, key: string, value: Value) {
    || value == Str("")
    || value == Bool(false)
    || (value == Str("All") && (rule.AsWritten? || key == "region"))
    || (key == "page" && StrictEquals(ToNumber(value), Int(1)))
    || (key == "pageSize" && StrictEquals(ToNumber(value), rule.defaultPageSize))
  }

  /** One step of the `forEach`: `delete(key)` or `set(key, value.toString())`. */
  function ApplyUpdate(p: Params, u: Update, rule: Rule): Params {
    if Elides(rule, u.0, u.1) then DeleteAll(p, u.0) else SetFirst(p, u.0, ToText(u.1))
  }

  /** The parameters after the updates have been applied in order; each update adds at most one pair. */
  function ApplyAll(p: Params, us: seq<Update>, rule: Rule): (r: Params)
    ensures |r| <= |p| + |us|
    decreases |us|
  {
    if us == [] then p
    else ApplyUpdate(ApplyAll(p, us[..|us| - 1], rule), us[|us| - 1], rule)
  }

  /** One more update applies to the result of the earlier ones. */
  lemma ApplyAllStep(p: Params, us: seq<Update>, i: nat, rule: Rule)
    requires i < |us|
    ensures ApplyAll(p, us[..i + 1], rule) == ApplyUpdate(ApplyAll(p, us[..i], rule), us[i], rule)
  {
    assert us[..i + 1][..i] == us[..i];
  }

  /** `qs ? "?" + qs : ""` */
  function QueryString(p: Params): string {
    var qs := Serialize(p);
    if qs != "" then "?" + qs else ""
  }

  /** The string `buildSearchUrl(searchParams, updates, options)` returns. */
  function SearchUrl(p: Params, us: seq<Update>, options: Option<Number>): string {
    QueryString(ApplyAll(p, us, AsWritten(DefaultPageSize(options))))
  }

  method BuildSearchUrl(searchParams: Params, updates: seq<Update>, options: Option<Number>)
    returns (url: string)
    ensures url == SearchUrl(searchParams, updates, options)
  {
    var defaultPageSize := DefaultPageSize(options);
    var newSearchParams := new UrlSearchParams(searchParams);
    var i := 0;
    while i < |updates|
      invariant 0 <= i <= |updates|
      invariant newSearchParams.list == ApplyAll(searchParams, updates[..i], AsWritten(defaultPageSize))
    {
      ApplyAllStep(searchParams, updates, i, AsWritten(defaultPageSize));
      var (key, value) := updates[i];
      var isDefaultPage := key == "page" && StrictEquals(ToNumber(value), Int(1));
      var isDefaultPageSize := key == "pageSize" && StrictEquals(ToNumber(value), defaultPageSize);
      if value == Str("") || value == Bool(false) || value == Str("All") || isDefaultPage || isDefaultPageSize {
        newSearchParams.Delete(key);
      } else {
        newSearchParams.Set(key, ToText(value));
      }
      i := i + 1;
    }
    assert updates[..i] == updates;
    var qs := newSearchParams.ToString();
    url := if qs != "" then "?" + qs else "";
  }

  // ---------------------------------------------------------------------------
  // What the updates do to each key

  /** The value of the last update naming `key`, if any. */
  function LastUpdate(us: seq<Update>, key: string): Option<Value>
    decreases |us|
  {
    if us == [] then None
    else if us[|us| - 1].0 == key then Some(us[|us| - 1].1)
    else LastUpdate(us[..|us| - 1], key)
  }

  /** No update names `key`. */
  lemma {:induction false} LastUpdateAbsent(us: seq<Update>, key: string)
    requires forall i :: 0 <= i < |us| ==> us[i].0 != key
    ensures LastUpdate(us, key) == None
    decreases |us|
  {
    if us != [] {
      LastUpdateAbsent(us[..|us| - 1], key);
    }
  }

  /** The keys the updates name. */
  function Keys(us: seq<Update>): set<string> {
    set u | u in us :: u.0
  }

  /**
   * The values of `key` after the updates: untouched when no update names it;
   * otherwise decided by the LAST update naming it alone: none when that update
   * elides, exactly its string form when it does not.
   */
  lemma {:induction false} ValuesAfterUpdates(p: Params, us: seq<Update>, rule: Rule, key: string)
    ensures ValuesOf(ApplyAll(p, us, rule), key) ==
      match LastUpdate(us, key)
      case None => ValuesOf(p, key)
      case Some(v) => if Elides(rule, key, v) then [] else [ToText(v)]
    decreases |us|
  {
    if us != [] {
      var u := us[|us| - 1];
      var before := ApplyAll(p, us[..|us| - 1], rule);
      ValuesAfterUpdates(p, us[..|us| - 1], rule, key);
      if Elides(rule, u.0, u.1) {
        DeleteAllValues(before, u.0, key);
      } else {
        SetFirstValues(before, u.0, ToText(u.1), key);
      }
    }
  }

  /** Updates whose value is `""`, `false` or `"All"` delete their key, whatever the key. */
  lemma SentinelDeletes(p: Params, us: seq<Update>, d: Number, key: string)
    requires LastUpdate(us, key) in {Some(Str("")), Some(Bool(false)), Some(Str("All"))}
    ensures Get(ApplyAll(p, us, AsWritten(d)), key) == None
  {
    ValuesAfterUpdates(p, us, AsWritten(d), key);
  }

  /** `page` equal to 1 and `pageSize` equal to the default (15 without options) are deleted. */
  lemma DefaultsDeleted(p: Params, us: seq<Update>, options: Option<Number>, key: string)
    requires key == "page" || key == "pageSize"
    requires LastUpdate(us, key).Some?
    requires var n := ToNumber(LastUpdate(us, key).value);
      if key == "page" then StrictEquals(n, Int(1)) else StrictEquals(n, DefaultPageSize(options))
    ensures Get(ApplyAll(p, us, AsWritten(DefaultPageSize(options))), key) == None
    ensures options == None ==> DefaultPageSize(options) == Int(15)
  {
    ValuesAfterUpdates(p, us, AsWritten(DefaultPageSize(options)), key);
  }

  /** Any other update leaves exactly one pair for its key, holding `value.toString()`. */
  lemma SetLeavesOne(p: Params, us: seq<Update>, rule: Rule, key: string)
    requires LastUpdate(us, key).Some? && !Elides(rule, key, LastUpdate(us, key).value)
    ensures ValuesOf(ApplyAll(p, us, rule), key) == [ToText(LastUpdate(us, key).value)]
    ensures Get(ApplyAll(p, us, rule), key) == Some(ToText(LastUpdate(us, key).value))
  {
    ValuesAfterUpdates(p, us, rule, key);
  }

  /** Pairs whose keys no update names are carried over unchanged and in the same order. */
  lemma {:induction false} UntouchedCarriedOver(p: Params, us: seq<Update>, rule: Rule, names: set<string>)
    requires Keys(us) <= names
    ensures Outside(ApplyAll(p, us, rule), names) == Outside(p, names)
    decreases |us|
  {
    if us != [] {
      var u := us[|us| - 1];
      assert u in us;
      assert Keys(us[..|us| - 1]) <= Keys(us) by {
        forall k | k in Keys(us[..|us| - 1]) ensures k in Keys(us) {
          var w :| w in us[..|us| - 1] && w.0 == k;
          assert w in us;
        }
      }
      UntouchedCarriedOver(p, us[..|us| - 1], rule, names);
      var before := ApplyAll(p, us[..|us| - 1], rule);
      if Elides(rule, u.0, u.1) {
        DeleteAllOutside(before, u.0, names);
      } else {
        SetFirstOutside(before, u.0, ToText(u.1), names);
      }
    }
  }

  /** The result is `""` when no parameter remains and `"?"` followed by the query string otherwise. */
  lemma QueryStringShape(p: Params)
    ensures QueryString(p) == "" <==> p == []
    ensures p != [] ==> QueryString(p)[0] == '?' && QueryString(p)[1..] == Serialize(p)
  {
    SerializeEmpty(p);
  }

  // ---------------------------------------------------------------------------
  // Idempotence

  /** No two updates name the same key, as for the entries of a JavaScript object. */
  predicate DistinctKeys(us: seq<Update>) {
    forall i, j :: 0 <= i < j < |us| ==> us[i].0 != us[j].0
  }

  lemma {:induction false} LastUpdateOfDistinct(us: seq<Update>, i: nat)
    requires DistinctKeys(us) && i < |us|
    ensures LastUpdate(us, us[i].0) == Some(us[i].1)
    decreases |us|
  {
    if i < |us| - 1 {
      var init := us[..|us| - 1];
      assert init[i] == us[i];
      LastUpdateOfDistinct(init, i);
    }
  }

  /** `p` already shows the outcome of update `u`. */
  predicate Settled(p: Params, u: Update, rule: Rule) {
    ValuesOf(p, u.0) == if Elides(rule, u.0, u.1) then [] else [ToText(u.1)]
  }

  lemma {:induction false} ApplySettled(p: Params, us: seq<Update>, rule: Rule)
    requires forall u :: u in us ==> Settled(p, u, rule)
    ensures ApplyAll(p, us, rule) == p
    decreases |us|
  {
    if us != [] {
      var u := us[|us| - 1];
      assert u in us;
      forall w | w in us[..|us| - 1] ensures Settled(p, w, rule) {
        assert w in us;
      }
      ApplySettled(p, us[..|us| - 1], rule);
      if Elides(rule, u.0, u.1) {
        DeleteAbsent(p, u.0);
      } else {
        SetSettled(p, u.0, ToText(u.1));
      }
    }
  }

  /** Applying the same updates to the result again changes nothing. */
  lemma ApplyAllIdempotent(p: Params, us: seq<Update>, rule: Rule)
    requires DistinctKeys(us)
    ensures ApplyAll(ApplyAll(p, us, rule), us, rule) == ApplyAll(p, us, rule)
  {
    var q := ApplyAll(p, us, rule);
    forall u | u in us ensures Settled(q, u, rule) {
      var i :| 0 <= i < |us| && us[i] == u;
      LastUpdateOfDistinct(us, i);
      ValuesAfterUpdates(p, us, rule, u.0);
    }
    ApplySettled(q, us, rule);
  }

  /** So `buildSearchUrl` on the parameters of its own result returns the same string. */
  lemma SearchUrlIdempotent(p: Params, us: seq<Update>, options: Option<Number>)
    requires DistinctKeys(us)
    ensures SearchUrl(ApplyAll(p, us, AsWritten(DefaultPageSize(options))), us, options) == SearchUrl(p, us, options)
  {
    ApplyAllIdempotent(p, us, AsWritten(DefaultPageSize(options)));
  }

  /**
   * Without distinct keys idempotence fails: a key deleted and then set is appended
   * after a key set in place.
   */
  lemma RepeatedKeysNotIdempotent()
    ensures var us := [("a", Str("")), ("a", Str("x")), ("b", Str("y"))];
      var rule := AsWritten(Int(15));
      ApplyAll(ApplyAll([], us, rule), us, rule) != ApplyAll([], us, rule)
  {
    var us := [("a", Str("")), ("a", Str("x")), ("b", Str("y"))];
    var rule := AsWritten(Int(15));
    assert us[..0] == [] && us[..1][..0] == [] && us[..2][..1] == us[..1] && us[..3] == us;
    assert !Elides(rule, "a", Str("x")) && !Elides(rule, "b", Str("y"));
    // first pass: delete a, set a (appended), set b (appended)
    assert ApplyAll([], us[..1], rule) == [];
    assert ApplyAll([], us[..2], rule) == [("a", "x")];
    var once := ApplyAll([], us, rule);
    assert [("a", "x")][1..] == [];
    assert SetFirst([("a", "x")], "b", "y") == [("a", "x")] + SetFirst([], "b", "y");
    assert once == [("a", "x"), ("b", "y")];
    // second pass: delete a, set a (appended after b), set b (in place)
    assert once[1..] == [("b", "y")] && once[1..][1..] == [];
    assert DeleteAll(once, "a") == DeleteAll([("b", "y")], "a") == [("b", "y")] + DeleteAll([], "a");
    assert ApplyAll(once, us[..1], rule) == [("b", "y")];
    assert [("b", "y")][1..] == [];
    assert SetFirst([("b", "y")], "a", "x") == [("b", "y")] + SetFirst([], "a", "x");
    assert ApplyAll(once, us[..2], rule) == [("b", "y"), ("a", "x")];
    assert [("b", "y"), ("a", "x")][1..] == [("a", "x")];
    assert DeleteAll([("a", "x")], "b") == [("a", "x")] + DeleteAll([], "b");
    assert ApplyAll(once, us, rule) == [("b", "y"), ("a", "x")];
  }
}
