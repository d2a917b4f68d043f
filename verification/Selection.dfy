/** tests_from_selection() of xtf-runner: choosing test instances and sorting them. */
module Selection {
  import opened Options
  import opened TestNames

  // ----- stable sorting by a key -----

  /** Comparison of Python strings, by code point. */
  predicate LessEq(s: string, t: string) {
    s == "" || (t != "" && (s[0] < t[0] || (s[0] == t[0] && LessEq(s[1..], t[1..]))))
  }

  predicate Less(s: string, t: string) { !LessEq(t, s) }

  lemma {:induction false} LessEqTotal(s: string, t: string)
    ensures LessEq(s, t) || LessEq(t, s)
    ensures LessEq(s, t) && LessEq(t, s) ==> s == t
    ensures LessEq(s, s)
    decreases |s|
  {
    if s != "" {
      LessEqTotal(s[1..], s[1..]);
      if t != "" {
        LessEqTotal(s[1..], t[1..]);
        assert s[0] == t[0] && s[1..] == t[1..] ==> s == [s[0]] + s[1..] == t;
      }
    }
  }

  lemma {:induction false} LessEqTransitive(s: string, t: string, u: string)
    requires LessEq(s, t) && LessEq(t, u)
    ensures LessEq(s, u)
    decreases |s|
  {
    if s != "" && s[0] == t[0] && t[0] == u[0] {
      LessEqTransitive(s[1..], t[1..], u[1..]);
    }
  }

  /** The order compares the first place where the strings differ; a prefix comes first. */
  lemma {:induction false} LessEqIff(s: string, t: string)
    ensures LessEq(s, t) <==> s <= t || exists k :: DifferAt(s, t, k) && s[k] < t[k]
    decreases |s|
  {
    if s != "" && t != "" {
      LessEqIff(s[1..], t[1..]);
      assert s == [s[0]] + s[1..] && t == [t[0]] + t[1..];
      if s[0] == t[0] {
        assert s <= t <==> s[1..] <= t[1..];
        if k :| DifferAt(s[1..], t[1..], k) && s[1..][k] < t[1..][k] {
          assert s[..k + 1] == [s[0]] + s[1..][..k] && t[..k + 1] == [t[0]] + t[1..][..k];
          assert DifferAt(s, t, k + 1);
        }
        if k :| DifferAt(s, t, k) && s[k] < t[k] {
          assert s[1..][..k - 1] == s[..k][1..] && t[1..][..k - 1] == t[..k][1..];
          assert DifferAt(s[1..], t[1..], k - 1) && s[1..][k - 1] == s[k] && t[1..][k - 1] == t[k];
        }
      } else {
        assert DifferAt(s, t, 0);
        forall k | DifferAt(s, t, k) ensures k == 0 {
          if k > 0 { SameHead(s, t, k); }
        }
      }
    }
  }

  lemma SameHead(s: string, t: string, k: nat)
    requires 0 < k <= |s| && k <= |t| && s[..k] == t[..k]
    ensures s[0] == t[0]
  {
    assert s[..k][0] == s[0] && t[..k][0] == t[0];
  }

  predicate DifferAt(s: string, t: string, k: int) {
    0 <= k < |s| && k < |t| && s[..k] == t[..k] && s[k] != t[k]
  }

  type Key = Instance -> string

  /** Puts `x` in front of the first element whose key is not smaller. */
  function Insert(key: Key, x: Instance, s: seq<Instance>): seq<Instance> {
    if s == [] || LessEq(key(x), key(s[0])) then [x] + s else [s[0]] + Insert(key, x, s[1..])
  }

  /** sorted(s, key = key), which is stable. */
  function Sorted(key: Key, s: seq<Instance>): seq<Instance> {
    if s == [] then [] else Insert(key, s[0], Sorted(key, s[1..]))
  }

  lemma {:induction false} InsertPermutes(key: Key, x: Instance, s: seq<Instance>)
    ensures multiset(Insert(key, x, s)) == multiset(s) + multiset{x}
    decreases |s|
  {
    if s != [] {
      assert s == [s[0]] + s[1..];
      InsertPermutes(key, x, s[1..]);
    }
  }

  lemma {:induction false} SortedPermutes(key: Key, s: seq<Instance>)
    ensures multiset(Sorted(key, s)) == multiset(s)
    decreases |s|
  {
    if s != [] {
      assert s == [s[0]] + s[1..];
      SortedPermutes(key, s[1..]);
      InsertPermutes(key, s[0], Sorted(key, s[1..]));
    }
  }

  /** Every element stands before those that come later by `order`. */
  ghost predicate Ordered(s: seq<Instance>, order: (Instance, Instance) -> bool) {
    forall i, j :: 0 <= i < j < |s| ==> order(s[i], s[j])
  }

  /** By `key`, and by `order` where the keys are equal. */
  function ThenBy(key: Key, order: (Instance, Instance) -> bool): (Instance, Instance) -> bool {
    (a, b) => Less(key(a), key(b)) || (key(a) == key(b) && order(a, b))
  }

  lemma HeadIsFirst(s: seq<Instance>, order: (Instance, Instance) -> bool, y: Instance)
    requires s != [] && Ordered(s, order) && y in s[1..]
    ensures order(s[0], y)
  {
    var k :| 0 <= k < |s[1..]| && s[1..][k] == y;
    assert order(s[0], s[k + 1]);
  }

  lemma {:induction false} InsertOrders(key: Key, order: (Instance, Instance) -> bool, x: Instance, s: seq<Instance>)
    requires Ordered(s, ThenBy(key, order))
    requires forall y :: y in s ==> order(x, y)
    ensures Ordered(Insert(key, x, s), ThenBy(key, order))
    decreases |s|
  {
    var r := Insert(key, x, s);
    if s != [] && !LessEq(key(x), key(s[0])) {
      var t := Insert(key, x, s[1..]);
      assert Ordered(s[1..], ThenBy(key, order));
      InsertOrders(key, order, x, s[1..]);
      InsertPermutes(key, x, s[1..]);
      forall j | 0 <= j < |t| ensures ThenBy(key, order)(s[0], t[j]) {
        assert t[j] in multiset(t);
        if t[j] != x {
          assert t[j] in s[1..];
          HeadIsFirst(s, ThenBy(key, order), t[j]);
        } else {
          assert Less(key(s[0]), key(x));
        }
      }
      assert r == [s[0]] + t;
    } else {
      forall j | 0 <= j < |s| ensures ThenBy(key, order)(x, s[j]) {
        assert s[j] in s;
        LessEqTotal(key(x), key(s[0]));
        if j > 0 {
          assert ThenBy(key, order)(s[0], s[j]);
          KeysFollow(key(x), key(s[0]), key(s[j]));
        }
        LessEqTotal(key(x), key(s[j]));
      }
    }
  }

  lemma KeysFollow(a: string, b: string, c: string)
    requires LessEq(a, b) && (Less(b, c) || b == c)
    ensures LessEq(a, c)
  {
    LessEqTotal(b, c);
    LessEqTransitive(a, b, c);
  }

  /** Stability: a sort by `key` keeps an order there was among equal keys. */
  lemma {:induction false} SortRefines(key: Key, order: (Instance, Instance) -> bool, s: seq<Instance>)
    requires Ordered(s, order)
    ensures Ordered(Sorted(key, s), ThenBy(key, order))
    decreases |s|
  {
    if s != [] {
      assert Ordered(s[1..], order);
      SortRefines(key, order, s[1..]);
      SortedPermutes(key, s[1..]);
      var t := Sorted(key, s[1..]);
      forall y | y in t ensures order(s[0], y) {
        assert y in multiset(t);
        HeadIsFirst(s, order, y);
      }
      InsertOrders(key, order, s[0], t);
    }
  }

  // ----- the three sorts of lines 367-369 -----

  const ByVariation: Key := (t: Instance) => if t.variation.Some? then t.variation.value else ""
  const ByEnv: Key := (t: Instance) => t.env
  const ByName: Key := (t: Instance) => t.name

  function SortResult(s: seq<Instance>): seq<Instance> {
    Sorted(ByName, Sorted(ByEnv, Sorted(ByVariation, s)))
  }

  /** Lexicographic by name, environment and variation. */
  ghost predicate InOrder(a: Instance, b: Instance) {
    || Less(a.name, b.name)
    || (a.name == b.name && Less(a.env, b.env))
    || (a.name == b.name && a.env == b.env && LessEq(ByVariation(a), ByVariation(b)))
  }

  function Always(): (Instance, Instance) -> bool { (a, b) => true }

  function ThreeKeys(): (Instance, Instance) -> bool {
    ThenBy(ByName, ThenBy(ByEnv, ThenBy(ByVariation, Always())))
  }

  lemma ThreeKeysAreInOrder(a: Instance, b: Instance)
    requires ThreeKeys()(a, b)
    ensures InOrder(a, b)
  {
    LessEqTotal(ByVariation(a), ByVariation(b));
    var two := ThenBy(ByEnv, ThenBy(ByVariation, Always()));
    assert Less(a.name, b.name) || (a.name == b.name && two(a, b));
    assert two(a, b) <==> Less(a.env, b.env) || (a.env == b.env && ThenBy(ByVariation, Always())(a, b));
    assert ThenBy(ByVariation, Always())(a, b) ==>
             Less(ByVariation(a), ByVariation(b)) || ByVariation(a) == ByVariation(b);
    LessEqTotal(ByVariation(a), ByVariation(a));
  }

  lemma SortResultOrdered(s: seq<Instance>)
    ensures multiset(SortResult(s)) == multiset(s)
    ensures Ordered(SortResult(s), ThreeKeys())
  {
    hide Sorted, ThenBy;
    var v := Sorted(ByVariation, s);
    var e := Sorted(ByEnv, v);
    SortedPermutes(ByVariation, s);
    SortedPermutes(ByEnv, v);
    SortedPermutes(ByName, e);
    SortRefines(ByVariation, Always(), s);
    SortRefines(ByEnv, ThenBy(ByVariation, Always()), v);
    SortRefines(ByName, ThenBy(ByEnv, ThenBy(ByVariation, Always())), e);
  }

  /** The result is the selection, rearranged into lexicographic order. */
  lemma SortResultIsLexicographic(s: seq<Instance>)
    ensures multiset(SortResult(s)) == multiset(s)
    ensures forall i, j :: 0 <= i < j < |SortResult(s)| ==> InOrder(SortResult(s)[i], SortResult(s)[j])
  {
    hide SortResult, ThreeKeys, InOrder;
    SortResultOrdered(s);
    var r := SortResult(s);
    forall i, j | 0 <= i < j < |r| ensures InOrder(r[i], r[j]) {
      assert ThreeKeys()(r[i], r[j]);
      ThreeKeysAreInOrder(r[i], r[j]);
    }
  }

  lemma HeadsEqual(s: seq<Instance>, t: seq<Instance>)
    requires s != [] && t != [] && multiset(s) == multiset(t)
    requires forall i, j :: 0 <= i < j < |s| ==> InOrder(s[i], s[j])
    requires forall i, j :: 0 <= i < j < |t| ==> InOrder(t[i], t[j])
    requires forall x :: x in s ==> x.variation != Some("")
    ensures s[0] == t[0]
  {
    hide InOrder;
    assert s[0] in multiset(t) && t[0] in multiset(s);
    assert s[0] in t && t[0] in s;
    var i :| 0 <= i < |t| && t[i] == s[0];
    var j :| 0 <= j < |s| && s[j] == t[0];
    if i > 0 && j > 0 {
      assert InOrder(t[0], t[i]) && InOrder(s[0], s[j]);
      InOrderAntisymmetric(s[0], t[0]);
    }
  }

  lemma SameLength(s: seq<Instance>, t: seq<Instance>)
    requires multiset(s) == multiset(t)
    ensures |s| == |t|
  {
    assert |s| == |multiset(s)| && |t| == |multiset(t)|;
  }

  lemma RestsEqual(s: seq<Instance>, t: seq<Instance>)
    requires s != [] && t != [] && s[0] == t[0] && multiset(s) == multiset(t)
    ensures multiset(s[1..]) == multiset(t[1..])
  {
    assert s == [s[0]] + s[1..] && t == [t[0]] + t[1..];
    assert multiset(s[1..]) == multiset(s) - multiset{s[0]} == multiset(t[1..]);
  }

  /** Two lists in order with the same elements are the same list, so the order in
      which the selection was put together does not show. */
  lemma {:induction false} OrderDetermines(s: seq<Instance>, t: seq<Instance>)
    requires multiset(s) == multiset(t)
    requires forall i, j :: 0 <= i < j < |s| ==> InOrder(s[i], s[j])
    requires forall i, j :: 0 <= i < j < |t| ==> InOrder(t[i], t[j])
    requires forall x :: x in s ==> x.variation != Some("")
    ensures s == t
    decreases |s|
  {
    hide InOrder;
    SameLength(s, t);
    if s != [] {
      HeadsEqual(s, t);
      RestsEqual(s, t);
      OrderDetermines(s[1..], t[1..]);
      assert s == [s[0]] + s[1..] && t == [t[0]] + t[1..];
    }
  }

  lemma InOrderAntisymmetric(a: Instance, b: Instance)
    requires InOrder(a, b) && InOrder(b, a)
    requires a.variation != Some("") && b.variation != Some("")
    ensures a == b
  {
    LessEqTotal(a.name, b.name);
    LessEqTotal(a.env, b.env);
    LessEqTotal(ByVariation(a), ByVariation(b));
  }

  // ----- selecting -----

  const DEFAULT_CATEGORIES := {"functional", "xsa"}
  const NON_DEFAULT_CATEGORIES := {"special", "utility", "in-development"}

  /** req_caps. */
  function RequiredCaps(t: Instance): set<string> {
    (if t.env in HVM_ENVIRONMENTS then {"hvm"} else if t.env == "pv32pae" then {"pv", "pv32"} else {"pv"})
    + (if t.variation == Some("hap") || t.variation == Some("shadow") then {t.variation.value} else {})
  }

  function OfEnv(name: string, env: string, variations: seq<string>): seq<Instance> {
    if variations == [] then [Instance(env, name, None)]
    else seq(|variations|, i requires 0 <= i < |variations| => Instance(env, name, Some(variations[i])))
  }

  function ForEnvs(name: string, envs: seq<string>, variations: seq<string>): seq<Instance> {
    if envs == [] then [] else OfEnv(name, envs[0], variations) + ForEnvs(name, envs[1..], variations)
  }

  /** set.intersection(), which drops what is listed twice. */
  function Keep(envs: seq<string>, filter: set<string>): seq<string> {
    if envs == [] then []
    else (if envs[0] in filter && envs[0] !in envs[1..] then [envs[0]] else []) + Keep(envs[1..], filter)
  }

  /** TestInfo.all_instances(); an empty filter is no filter. */
  function AllInstances(info: Info, envFilter: set<string>): seq<Instance> {
    ForEnvs(info.name, if envFilter == {} then info.envs else Keep(info.envs, envFilter), info.variations)
  }

  function Collect(infos: seq<Info>, cats: set<string>, envFilter: set<string>): seq<Instance> {
    if infos == [] then []
    else
      Collect(infos[..|infos| - 1], cats, envFilter)
      + (var info := infos[|infos| - 1]; if info.cat in cats then AllInstances(info, envFilter) else [])
  }

  function Filter(s: seq<Instance>, keep: Instance -> bool): seq<Instance> {
    if s == [] then [] else (if keep(s[0]) then [s[0]] else []) + Filter(s[1..], keep)
  }

  /** `x in tests`: instances are compared by their printed form. */
  predicate Among(x: Instance, tests: seq<Instance>) {
    exists i :: 0 <= i < |tests| && Repr(tests[i]) == Repr(x)
  }

  /** Lines 338-347: non-default categories come in only if they are asked for. */
  predicate AsksForNonDefault(infos: seq<Info>, cats: set<string>, tests: seq<Instance>) {
    || cats * NON_DEFAULT_CATEGORIES != {}
    || (exists i, k :: 0 <= i < |tests| && 0 <= k < |infos| && infos[k].name == tests[i].name
                       && infos[k].cat in NON_DEFAULT_CATEGORIES)
  }

  function FallbackCategories(infos: seq<Info>, cats: set<string>, tests: seq<Instance>): set<string> {
    if AsksForNonDefault(infos, cats, tests) then DEFAULT_CATEGORIES + NON_DEFAULT_CATEGORIES else DEFAULT_CATEGORIES
  }

  /** The result after the categories, after the environments, and after the tests. */
  function AfterCats(infos: seq<Info>, cats: set<string>): seq<Instance> {
    if cats == {} then [] else Collect(infos, cats, {})
  }

  function AfterEnvs(infos: seq<Info>, cats: set<string>, envs: set<string>, tests: seq<Instance>): seq<Instance> {
    var res := AfterCats(infos, cats);
    if envs == {} then res
    else if res != [] then Filter(res, (x: Instance) => x.env in envs)
    else Collect(infos, FallbackCategories(infos, cats, tests), envs)
  }

  function AfterTests(infos: seq<Info>, cats: set<string>, envs: set<string>, tests: seq<Instance>): seq<Instance> {
    var res := AfterEnvs(infos, cats, envs, tests);
    if tests == [] then res
    else if res != [] then Filter(res, (x: Instance) => Among(x, tests))
    else tests
  }

  /** tests_from_selection(), with lists and sets built up as the code does. */
  method TestsFromSelection(infos: seq<Info>, cats: set<string>, envs: set<string>, tests: seq<Instance>,
                            caps: set<string>)
    returns (res: seq<Instance>)
    ensures var chosen := AfterTests(infos, cats, envs, tests);
            var suitable := if caps == {} then chosen else Filter(chosen, (x: Instance) => RequiredCaps(x) <= caps);
            multiset(res) == multiset(suitable)
    ensures forall i, j :: 0 <= i < j < |res| ==> InOrder(res[i], res[j])
    ensures Tidy(infos) && Once(tests) ==> Once(res)
  {
    hide Once, Tidy, InOrder;
    if Tidy(infos) && Once(tests) {
      ChosenOnce(infos, cats, envs, tests);
    }
    res := [];
    if cats != {} {
      res := CollectLoop(infos, cats, {});
    }
    if envs != {} {
      if res != [] {
        res := Filter(res, (x: Instance) => x.env in envs);
      } else {
        var categories := DEFAULT_CATEGORIES;
        if AsksForNonDefault(infos, cats, tests) {
          categories := DEFAULT_CATEGORIES + NON_DEFAULT_CATEGORIES;
        }
        res := CollectLoop(infos, categories, envs);
      }
    }
    if tests != [] {
      if res != [] {
        res := Filter(res, (x: Instance) => Among(x, tests));
      } else {
        res := tests;
      }
    }
    if caps != {} {
      if Once(res) { FilterOnce(res, (x: Instance) => RequiredCaps(x) <= caps); }
      res := Filter(res, (x: Instance) => RequiredCaps(x) <= caps);
    }
    ghost var unsorted := res;
    SortResultIsLexicographic(res);
    res := Sorted(ByVariation, res);
    res := Sorted(ByEnv, res);
    res := Sorted(ByName, res);
    if Once(unsorted) { OncePermuted(unsorted, res); }
  }

  lemma OncePermuted(s: seq<Instance>, t: seq<Instance>)
    requires Once(s) && multiset(s) == multiset(t)
    ensures Once(t)
  {
  }

  method CollectLoop(infos: seq<Info>, cats: set<string>, envFilter: set<string>) returns (res: seq<Instance>)
    ensures res == Collect(infos, cats, envFilter)
  {
    res := [];
    for k := 0 to |infos|
      invariant res == Collect(infos[..k], cats, envFilter)
    {
      assert infos[..k + 1][..k] == infos[..k];
      if infos[k].cat in cats {
        res := res + AllInstances(infos[k], envFilter);
      }
    }
    assert infos[..|infos|] == infos;
  }

  // ----- "combined and-wise" -----

  lemma {:induction false} CollectMembers(infos: seq<Info>, cats: set<string>, envFilter: set<string>, x: Instance)
    ensures x in Collect(infos, cats, envFilter) <==>
            exists k :: 0 <= k < |infos| && infos[k].cat in cats && x in AllInstances(infos[k], envFilter)
    decreases |infos|
  {
    hide AllInstances;
    if infos != [] {
      var n := |infos| - 1;
      CollectMembers(infos[..n], cats, envFilter, x);
      assert forall k :: 0 <= k < n ==> infos[..n][k] == infos[k];
    }
  }

  lemma {:induction false} FilterMembers(s: seq<Instance>, keep: Instance -> bool, x: Instance)
    ensures x in Filter(s, keep) <==> x in s && keep(x)
    decreases |s|
  {
    if s != [] {
      FilterMembers(s[1..], keep, x);
    }
  }

  /** What the documentation promises: the instances in one of the categories, for
      one of the environments, among the tests, where a parameter that is not given
      does not constrain. */
  ghost predicate AndWise(infos: seq<Info>, cats: set<string>, envs: set<string>, tests: seq<Instance>, x: Instance) {
    && (exists k :: 0 <= k < |infos| && (cats == {} || infos[k].cat in cats) && x in AllInstances(infos[k], {}))
    && (envs == {} || x.env in envs)
    && Matches(x, tests)
  }

  predicate Matches(x: Instance, tests: seq<Instance>) { tests == [] || Among(x, tests) }

  /** What TestInfo() and get_all_test_info() have checked of the table behind `infos`,
      and the names that all_instances() can construct. */
  ghost predicate Loaded(infos: seq<Info>, table: map<string, Info>) {
    forall k :: 0 <= k < |infos| ==>
      && infos[k].name in table && table[infos[k].name] == infos[k] && '~' !in infos[k].name
      && infos[k].cat in DEFAULT_CATEGORIES + NON_DEFAULT_CATEGORIES
      && (forall e :: e in infos[k].envs ==> e in ALL_ENVIRONMENTS)
  }

  /** What parse_test_instance_string() has checked of the tests asked for. */
  ghost predicate Parsable(tests: seq<Instance>, table: map<string, Info>) {
    forall t :: t in tests ==> Supported(t, table) && '~' !in t.name
  }

  lemma OfEnvMembers(name: string, env: string, variations: seq<string>, x: Instance)
    ensures x in OfEnv(name, env, variations) <==>
            && x.name == name && x.env == env
            && (if variations == [] then x.variation.None?
                else x.variation.Some? && x.variation.value in variations)
  {
    if variations != [] && x.variation.Some? && x.variation.value in variations {
      var i :| 0 <= i < |variations| && variations[i] == x.variation.value;
      assert OfEnv(name, env, variations)[i] == Instance(env, name, x.variation);
    }
  }

  lemma {:induction false} ForEnvsMembers(name: string, envs: seq<string>, variations: seq<string>, x: Instance)
    ensures x in ForEnvs(name, envs, variations) <==> x.env in envs && x in OfEnv(name, x.env, variations)
    decreases |envs|
  {
    hide OfEnv;
    if envs != [] {
      ForEnvsMembers(name, envs[1..], variations, x);
      OfEnvMembers(name, envs[0], variations, x);
    }
  }

  lemma {:induction false} KeepMembers(envs: seq<string>, filter: set<string>, env: string)
    ensures env in Keep(envs, filter) <==> env in envs && env in filter
    decreases |envs|
  {
    if envs != [] {
      KeepMembers(envs[1..], filter, env);
    }
  }

  /** Filtering the environments of a test is filtering its instances. */
  lemma AllInstancesMembers(info: Info, envFilter: set<string>, x: Instance)
    ensures x in AllInstances(info, envFilter) <==>
            x in AllInstances(info, {}) && (envFilter == {} || x.env in envFilter)
    ensures x in AllInstances(info, {}) <==>
            && x.name == info.name && x.env in info.envs
            && (if info.variations == [] then x.variation.None?
                else x.variation.Some? && x.variation.value in info.variations)
  {
    hide ForEnvs, Keep, OfEnv;
    ForEnvsMembers(info.name, info.envs, info.variations, x);
    ForEnvsMembers(info.name, Keep(info.envs, envFilter), info.variations, x);
    KeepMembers(info.envs, envFilter, x.env);
    OfEnvMembers(info.name, x.env, info.variations, x);
  }

  /** An instance of a loaded test that is among the tests asked for has a category
      that those tests bring in. */
  lemma AskedForIsIncluded(infos: seq<Info>, table: map<string, Info>, tests: seq<Instance>, k: nat, x: Instance)
    requires Loaded(infos, table) && Parsable(tests, table)
    requires k < |infos| && x in AllInstances(infos[k], {}) && Among(x, tests)
    ensures infos[k].cat in FallbackCategories(infos, {}, tests)
  {
    hide AllInstances, Repr;
    AllInstancesMembers(infos[k], {}, x);
    var i :| 0 <= i < |tests| && Repr(tests[i]) == Repr(x);
    assert tests[i] in tests;
    ReprNames(tests[i], x, table);
    assert infos[k].name == tests[i].name;
  }

  /** Without categories, the instances for the environments from which the tests are
      picked hold everything that the documentation promises. */
  lemma WithoutCategories(infos: seq<Info>, table: map<string, Info>, envs: set<string>, tests: seq<Instance>,
                          x: Instance)
    requires envs != {} && tests != [] && Loaded(infos, table) && Parsable(tests, table)
    ensures AndWise(infos, {}, envs, tests, x) <==> x in AfterEnvs(infos, {}, envs, tests) && Among(x, tests)
  {
    hide AllInstances, Collect, Among, Loaded, Parsable, FallbackCategories;
    var cats := FallbackCategories(infos, {}, tests);
    CollectMembers(infos, cats, envs, x);
    forall k | 0 <= k < |infos|
      ensures x in AllInstances(infos[k], envs) <==> x in AllInstances(infos[k], {}) && x.env in envs
      ensures x in AllInstances(infos[k], {}) && Among(x, tests) ==> infos[k].cat in cats
    {
      AllInstancesMembers(infos[k], envs, x);
      if x in AllInstances(infos[k], {}) && Among(x, tests) {
        AskedForIsIncluded(infos, table, tests, k, x);
      }
    }
  }

  lemma WithCategories(infos: seq<Info>, cats: set<string>, envs: set<string>, tests: seq<Instance>, x: Instance)
    requires cats != {}
    ensures AndWise(infos, cats, envs, tests, x) <==>
            x in AfterCats(infos, cats) && (envs == {} || x.env in envs) && Matches(x, tests)
  {
    CollectMembers(infos, cats, {}, x);
  }

  /** Two parameters at least are given, so that there is something to combine. */
  predicate Combines(cats: set<string>, envs: set<string>, tests: seq<Instance>) {
    (if cats == {} then 0 else 1) + (if envs == {} then 0 else 1) + (if tests == [] then 0 else 1) >= 2
  }

  /** The promise for any two or three of the parameters is kept exactly when there is
      a result left for the tests to be picked from, and one of the categories left for
      the environments, or what is taken in its place holds nothing that matches: an
      empty result is not told apart from a parameter that was not given. */
  lemma AndWiseIff(infos: seq<Info>, table: map<string, Info>, cats: set<string>, envs: set<string>,
                   tests: seq<Instance>)
    requires Combines(cats, envs, tests)
    requires cats == {} ==> Loaded(infos, table) && Parsable(tests, table)
    ensures var a := AfterCats(infos, cats);
            var b := AfterEnvs(infos, cats, envs, tests);
            (forall x :: x in AfterTests(infos, cats, envs, tests) <==> AndWise(infos, cats, envs, tests, x))
            <==> (tests == [] || b != [])
                 && (cats == {} || envs == {} || a != [] || forall x :: x in b ==> !Matches(x, tests))
  {
    hide AndWise, Collect, FallbackCategories, Filter, Loaded, Parsable;
    var a := AfterCats(infos, cats);
    var b := AfterEnvs(infos, cats, envs, tests);
    var c := AfterTests(infos, cats, envs, tests);
    forall x
      ensures cats != {} ==> (AndWise(infos, cats, envs, tests, x)
                              <==> x in a && (envs == {} || x.env in envs) && Matches(x, tests))
      ensures cats == {} ==> (AndWise(infos, cats, envs, tests, x) <==> x in b && Among(x, tests))
    {
      if cats == {} {
        WithoutCategories(infos, table, envs, tests, x);
      } else {
        WithCategories(infos, cats, envs, tests, x);
      }
    }
    forall x ensures envs != {} && a != [] ==> (x in b <==> x in a && x.env in envs) {
      FilterMembers(a, (x: Instance) => x.env in envs, x);
    }
    forall x ensures tests != [] && b != [] ==> (x in c <==> x in b && Among(x, tests)) {
      FilterMembers(b, (x: Instance) => Among(x, tests), x);
    }
    if tests != [] && b == [] {
      assert tests[0] in c && Among(tests[0], tests);
      assert !AndWise(infos, cats, envs, tests, tests[0]);
    } else if cats != {} && envs != {} && a == [] {
      assert forall x :: !AndWise(infos, cats, envs, tests, x);
    }
  }

  // ----- single parameters, capabilities, and how often -----

  /** What brings the other categories in: one of them is asked for, or a test of one. */
  ghost predicate ReferencesNonDefault(infos: seq<Info>, cats: set<string>, tests: seq<Instance>) {
    || "special" in cats || "utility" in cats || "in-development" in cats
    || exists t, k :: t in tests && 0 <= k < |infos| && infos[k].name == t.name
                      && infos[k].cat in {"special", "utility", "in-development"}
  }

  lemma ReferencesIff(infos: seq<Info>, cats: set<string>, tests: seq<Instance>)
    ensures AsksForNonDefault(infos, cats, tests) <==> ReferencesNonDefault(infos, cats, tests)
  {
    if exists c :: c in cats && c in NON_DEFAULT_CATEGORIES {
      var c :| c in cats && c in NON_DEFAULT_CATEGORIES;
      assert c in cats * NON_DEFAULT_CATEGORIES;
    } else {
      assert cats * NON_DEFAULT_CATEGORIES == {};
    }
    if t, k :| t in tests && 0 <= k < |infos| && infos[k].name == t.name && infos[k].cat in NON_DEFAULT_CATEGORIES {
      var i :| 0 <= i < |tests| && tests[i] == t;
    }
  }

  /** Environments pick from the functional and the XSA tests, and from all of them if a
      category or a test refers to the others. */
  lemma EnvironmentsPick(infos: seq<Info>, cats: set<string>, envs: set<string>, tests: seq<Instance>, x: Instance)
    requires envs != {} && AfterCats(infos, cats) == []
    ensures x in AfterEnvs(infos, cats, envs, tests) <==>
            x.env in envs
            && exists k :: 0 <= k < |infos| && x in AllInstances(infos[k], {})
                           && (infos[k].cat in {"functional", "xsa"}
                               || (ReferencesNonDefault(infos, cats, tests)
                                   && infos[k].cat in {"special", "utility", "in-development"}))
  {
    hide AllInstances, Collect, ReferencesNonDefault, AsksForNonDefault;
    ReferencesIff(infos, cats, tests);
    var all := FallbackCategories(infos, cats, tests);
    CollectMembers(infos, all, envs, x);
    forall k | 0 <= k < |infos|
      ensures x in AllInstances(infos[k], envs) <==> x in AllInstances(infos[k], {}) && x.env in envs
    {
      AllInstancesMembers(infos[k], envs, x);
    }
  }

  /** A single parameter: categories give their tests, environments the tests for them of
      the default categories only, and tests are taken as they are. */
  lemma OneParameter(infos: seq<Info>, cats: set<string>, envs: set<string>, tests: seq<Instance>, x: Instance)
    ensures cats != {} ==>
              (x in AfterTests(infos, cats, {}, []) <==>
               exists k :: 0 <= k < |infos| && infos[k].cat in cats && x in AllInstances(infos[k], {}))
    ensures envs != {} ==>
              (x in AfterTests(infos, {}, envs, []) <==>
               x.env in envs
               && exists k :: 0 <= k < |infos| && infos[k].cat in {"functional", "xsa"}
                              && x in AllInstances(infos[k], {}))
    ensures AfterTests(infos, {}, {}, tests) == tests
  {
    hide AllInstances, Collect;
    CollectMembers(infos, cats, {}, x);
    if envs != {} {
      EnvironmentsPick(infos, {}, envs, [], x);
    }
  }

  /** What a host must be capable of. */
  lemma CapableIff(x: Instance, caps: set<string>)
    requires x.env in {"pv64", "pv32pae", "hvm64", "hvm32pae", "hvm32pse", "hvm32"}
    ensures RequiredCaps(x) <= caps <==>
            && (x.env in {"hvm64", "hvm32pae", "hvm32pse", "hvm32"} ==> "hvm" in caps)
            && (x.env in {"pv64", "pv32pae"} ==> "pv" in caps)
            && (x.env == "pv32pae" ==> "pv32" in caps)
            && (x.variation == Some("hap") ==> "hap" in caps)
            && (x.variation == Some("shadow") ==> "shadow" in caps)
  {
    assert x.env in HVM_ENVIRONMENTS ==> x.env[0] == 'h';
    assert x.env in PV_ENVIRONMENTS ==> x.env[0] == 'p';
    var caps' := RequiredCaps(x);
    assert caps' <= caps <==> forall c :: c in caps' ==> c in caps;
  }

  lemma {:induction false} FilterCounts(s: seq<Instance>, keep: Instance -> bool, x: Instance)
    ensures multiset(Filter(s, keep))[x] == if keep(x) then multiset(s)[x] else 0
    decreases |s|
  {
    if s != [] {
      assert s == [s[0]] + s[1..];
      FilterCounts(s[1..], keep, x);
    }
  }

  ghost predicate Distinct<T>(s: seq<T>) { forall i, j :: 0 <= i < j < |s| ==> s[i] != s[j] }

  /** No instance occurs twice. */
  ghost predicate Once(s: seq<Instance>) { forall x :: multiset(s)[x] <= 1 }

  lemma {:induction false} DistinctOnce(s: seq<Instance>)
    requires Distinct(s)
    ensures Once(s)
    decreases |s|
  {
    if s != [] {
      DistinctOnce(s[1..]);
      assert s == [s[0]] + s[1..];
      assert s[0] !in s[1..];
    }
  }

  lemma OnceConcat(s: seq<Instance>, t: seq<Instance>)
    requires Once(s) && Once(t) && forall x :: x in s ==> x !in t
    ensures Once(s + t)
  {
    forall x ensures multiset(s + t)[x] <= 1 {
      assert multiset(s + t)[x] == multiset(s)[x] + multiset(t)[x];
      assert x in s <==> multiset(s)[x] > 0;
      assert x in t <==> multiset(t)[x] > 0;
    }
  }

  lemma {:induction false} ForEnvsOnce(name: string, envs: seq<string>, variations: seq<string>)
    requires Distinct(envs) && Distinct(variations)
    ensures Once(ForEnvs(name, envs, variations))
    decreases |envs|
  {
    if envs != [] {
      assert envs[0] !in envs[1..];
      ForEnvsOnce(name, envs[1..], variations);
      DistinctOnce(OfEnv(name, envs[0], variations));
      forall x | x in OfEnv(name, envs[0], variations) ensures x !in ForEnvs(name, envs[1..], variations) {
        OfEnvMembers(name, envs[0], variations, x);
        ForEnvsMembers(name, envs[1..], variations, x);
      }
      OnceConcat(OfEnv(name, envs[0], variations), ForEnvs(name, envs[1..], variations));
    }
  }

  lemma {:induction false} KeepDistinct(envs: seq<string>, filter: set<string>)
    ensures Distinct(Keep(envs, filter))
    decreases |envs|
  {
    if envs != [] {
      KeepDistinct(envs[1..], filter);
      KeepMembers(envs[1..], filter, envs[0]);
    }
  }

  /** The tests have different names, and none lists an environment or variation twice. */
  ghost predicate Tidy(infos: seq<Info>) {
    && (forall k :: 0 <= k < |infos| ==> Distinct(infos[k].envs) && Distinct(infos[k].variations))
    && (forall j, k :: 0 <= j < k < |infos| ==> infos[j].name != infos[k].name)
  }

  lemma {:induction false} CollectOnce(infos: seq<Info>, cats: set<string>, envFilter: set<string>)
    requires Tidy(infos)
    ensures Once(Collect(infos, cats, envFilter))
    decreases |infos|
  {
    hide AllInstances, Once;
    if infos == [] {
      assert Once([]) by { DistinctOnce([]); }
    } else {
      var n := |infos| - 1;
      var before, info := Collect(infos[..n], cats, envFilter), infos[n];
      CollectOnce(infos[..n], cats, envFilter);
      AllInstancesOnce(info, envFilter);
      forall x | x in before ensures x !in AllInstances(info, envFilter) {
        CollectMembers(infos[..n], cats, envFilter, x);
        var k :| 0 <= k < n && x in AllInstances(infos[..n][k], envFilter);
        AllInstancesMembers(infos[k], envFilter, x);
        AllInstancesMembers(info, envFilter, x);
      }
      OnceConcat(before, AllInstances(info, envFilter));
      assert before + [] == before;
    }
  }

  lemma AllInstancesOnce(info: Info, envFilter: set<string>)
    requires Distinct(info.envs) && Distinct(info.variations)
    ensures Once(AllInstances(info, envFilter))
  {
    KeepDistinct(info.envs, envFilter);
    ForEnvsOnce(info.name, if envFilter == {} then info.envs else Keep(info.envs, envFilter), info.variations);
  }

  lemma FilterOnce(s: seq<Instance>, keep: Instance -> bool)
    requires Once(s)
    ensures Once(Filter(s, keep))
  {
    forall x ensures multiset(Filter(s, keep))[x] <= 1 {
      FilterCounts(s, keep, x);
    }
  }

  /** No test is chosen twice. */
  lemma ChosenOnce(infos: seq<Info>, cats: set<string>, envs: set<string>, tests: seq<Instance>)
    requires Tidy(infos) && Once(tests)
    ensures Once(AfterTests(infos, cats, envs, tests))
  {
    hide Collect, FallbackCategories, Filter, Among;
    CollectOnce(infos, cats, {});
    CollectOnce(infos, FallbackCategories(infos, cats, tests), envs);
    assert Once(AfterCats(infos, cats)) by { DistinctOnce([]); }
    FilterOnce(AfterCats(infos, cats), (x: Instance) => x.env in envs);
    FilterOnce(AfterEnvs(infos, cats, envs, tests), (x: Instance) => Among(x, tests));
  }

  /** A test for 64-bit PV guests only, asked for by category together with an HVM
      environment and an instance of itself, is returned although it does not match. */
  lemma AndWiseFails()
    ensures var infos := [Info("example", "functional", ["pv64"], [])];
            var t := Instance("pv64", "example", None);
            && AfterTests(infos, {"functional"}, {"hvm64"}, [t]) == [t]
            && !AndWise(infos, {"functional"}, {"hvm64"}, [t], t)
  {
    var infos := [Info("example", "functional", ["pv64"], [])];
    var t := Instance("pv64", "example", None);
    assert AllInstances(infos[0], {}) == [t] by {
      assert ForEnvs("example", ["pv64"][1..], []) == [];
    }
    assert infos[..0] == [];
    assert Collect(infos, {"functional"}, {}) == [t];
    assert Filter([t], (x: Instance) => x.env in {"hvm64"}) == [] by {
      assert t.env != "hvm64" by { assert t.env[0] == 'p'; }
      assert [t][1..] == [];
    }
  }

  const EXAMPLE := [Info("a", "functional", ["pv64"], []), Info("b", "xsa", ["hvm64"], [])]

  lemma CollectTwo(a: Info, b: Info, cats: set<string>, envFilter: set<string>)
    ensures Collect([a, b], cats, envFilter)
         == (if a.cat in cats then AllInstances(a, envFilter) else [])
            + (if b.cat in cats then AllInstances(b, envFilter) else [])
  {
    hide AllInstances;
    assert [a, b][..1] == [a] && [a][..0] == [];
    assert Collect([a], cats, envFilter) == if a.cat in cats then AllInstances(a, envFilter) else [];
  }

  lemma NoneIsSpecial()
    ensures Collect(EXAMPLE, {"special"}, {}) == []
  {
    hide AllInstances, Collect;
    CollectTwo(EXAMPLE[0], EXAMPLE[1], {"special"}, {});
    assert "functional"[0] != "special"[0] && "xsa"[0] != "special"[0];
  }

  lemma OneIsHvm()
    ensures Collect(EXAMPLE, DEFAULT_CATEGORIES + NON_DEFAULT_CATEGORIES, {"hvm64"}) == [Instance("hvm64", "b", None)]
  {
    hide Collect;
    CollectTwo(EXAMPLE[0], EXAMPLE[1], DEFAULT_CATEGORIES + NON_DEFAULT_CATEGORIES, {"hvm64"});
    assert AllInstances(EXAMPLE[0], {"hvm64"}) == [] by {
      assert "pv64"[0] != "hvm64"[0];
      assert ["pv64"][1..] == [];
    }
    assert AllInstances(EXAMPLE[1], {"hvm64"}) == [Instance("hvm64", "b", None)] by {
      assert ["hvm64"][1..] == [];
      assert Keep(["hvm64"], {"hvm64"}) == ["hvm64"];
      assert ForEnvs("b", ["hvm64"][1..], []) == [];
    }
  }

  /** A category and an environment, as in the documentation's own example: no test is
      special, and the test for the environment is returned although it is not. */
  lemma AndWiseFailsForTwo()
    ensures AfterTests(EXAMPLE, {"special"}, {"hvm64"}, []) == [Instance("hvm64", "b", None)]
    ensures forall x :: !AndWise(EXAMPLE, {"special"}, {"hvm64"}, [], x)
  {
    hide AllInstances, Collect, AndWise;
    NoneIsSpecial();
    OneIsHvm();
    assert "special" in {"special"} * NON_DEFAULT_CATEGORIES;
    forall x ensures !AndWise(EXAMPLE, {"special"}, {"hvm64"}, [], x) {
      WithCategories(EXAMPLE, {"special"}, {"hvm64"}, [], x);
    }
  }
}
