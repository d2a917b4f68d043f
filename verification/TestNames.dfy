/** Test instances of xtf-runner and their textual form. */
module TestNames {
  import opened Options

  /** What info.json says of a test. */
  datatype Info = Info(name: string, cat: string, envs: seq<string>, variations: seq<string>)

  datatype Instance = Instance(env: string, name: string, variation: Option<string>)

  /** A parsed test argument; the environment and the variation may be missing. */
  datatype Parsed = Parsed(env: Option<string>, name: string, variation: Option<string>)

  datatype Error =
    | UnrecognisedTest
    | UnrecognisedName
    | NoSuchEnvironment
    | NoVariations
    | NoSuchVariation

  datatype Result<T> = Ok(value: T) | Err(error: Error)

  const PV_ENVIRONMENTS := {"pv64", "pv32pae"}
  const HVM_ENVIRONMENTS := {"hvm64", "hvm32pae", "hvm32pse", "hvm32"}
  const ALL_ENVIRONMENTS := PV_ENVIRONMENTS + HVM_ENVIRONMENTS

  /** TestInstance.__repr__(). */
  function Repr(t: Instance): string {
    var plain := "test-" + t.env + "-" + t.name;
    if t.variation.None? || t.variation.value == "" then plain else plain + "~" + t.variation.value
  }

  // ----- str.split(sep, maxsplit) -----

  function Split(s: string, sep: char, max: nat): (parts: seq<string>)
    ensures |parts| >= 1
    decreases |s|
  {
    if max == 0 || sep !in s then [s]
    else
      var i := Find(s, sep);
      [s[..i]] + Split(s[i + 1..], sep, max - 1)
  }

  function Find(s: string, c: char): (i: nat)
    requires c in s
    ensures i < |s| && s[i] == c && c !in s[..i]
  {
    if s[0] == c then 0 else Find(s[1..], c) + 1
  }

  function Join(parts: seq<string>, sep: string): string
    requires |parts| >= 1
  {
    if |parts| == 1 then parts[0] else parts[0] + sep + Join(parts[1..], sep)
  }

  lemma {:induction false} FindAfter(s: string, c: char, t: string)
    requires c !in s
    ensures Find(s + [c] + t, c) == |s|
    decreases |s|
  {
    var u := s + [c] + t;
    if s != "" {
      assert u[0] == s[0] && s[0] in s;
      assert u[1..] == s[1..] + [c] + t;
      FindAfter(s[1..], c, t);
    }
  }

  /** A separator-free head splits off. */
  lemma SplitHead(s: string, sep: char, t: string, max: nat)
    requires sep !in s && max > 0
    ensures Split(s + [sep] + t, sep, max) == [s] + Split(t, sep, max - 1)
  {
    var u := s + [sep] + t;
    FindAfter(s, sep, t);
    assert u[|s|] == sep;
    assert u[..|s|] == s && u[|s| + 1..] == t;
  }

  // ----- parse_test_instance_string() -----

  function Parse(arg: string, table: map<string, Info>): Result<Parsed> {
    var (text, variation) :=
      if '~' in arg then
        var parts := Split(arg, '~', 1);
        (parts[0], if |parts| > 1 then Some(parts[1]) else None)
      else (arg, None);
    var parts := Split(text, '-', 2);
    if |parts| == 3 && parts[0] == "test" && parts[1] in ALL_ENVIRONMENTS then
      Check(Parsed(Some(parts[1]), parts[2], variation), table)
    else if parts[0] in ALL_ENVIRONMENTS then
      Check(Parsed(Some(parts[0]), if |parts| > 1 then Join(parts[1..], "-") else "", variation), table)
    else if text in table then
      Check(Parsed(None, text, variation), table)
    else Err(UnrecognisedTest)
  }

  /** Lines 230-246. */
  function Check(p: Parsed, table: map<string, Info>): Result<Parsed> {
    if p.name !in table then Err(UnrecognisedName)
    else
      var info := table[p.name];
      if p.env.Some? && p.env.value !in info.envs then Err(NoSuchEnvironment)
      else if p.variation.Some? && info.variations == [] then Err(NoVariations)
      else if p.variation.Some? && p.variation.value !in info.variations then Err(NoSuchVariation)
      else Ok(p)
  }

  /** The part of Parse() behind the variation, on text without '~'. */
  lemma ParseVariation(text: string, variation: Option<string>, table: map<string, Info>)
    requires '~' !in text
    ensures var arg := if variation.Some? then text + "~" + variation.value else text;
            var parts := Split(text, '-', 2);
            Parse(arg, table) ==
              if |parts| == 3 && parts[0] == "test" && parts[1] in ALL_ENVIRONMENTS then
                Check(Parsed(Some(parts[1]), parts[2], variation), table)
              else if parts[0] in ALL_ENVIRONMENTS then
                Check(Parsed(Some(parts[0]), if |parts| > 1 then Join(parts[1..], "-") else "", variation), table)
              else if text in table then
                Check(Parsed(None, text, variation), table)
              else Err(UnrecognisedTest)
  {
    if variation.Some? {
      SplitHead(text, '~', variation.value, 1);
      assert '~' in text + ['~'] + variation.value by {
        assert (text + ['~'] + variation.value)[|text|] == '~';
      }
    }
  }

  /** An instance that the table supports. */
  predicate Supported(t: Instance, table: map<string, Info>) {
    && t.env in ALL_ENVIRONMENTS && t.name in table && t.env in table[t.name].envs
    && (t.variation.Some? ==> t.variation.value in table[t.name].variations)
  }

  lemma EnvironmentsArePlain(env: string)
    requires env in ALL_ENVIRONMENTS
    ensures '-' !in env && '~' !in env
  {
  }

  lemma SplitPlain(env: string, name: string)
    requires '-' !in env
    ensures Split("test-" + env + "-" + name, '-', 2) == ["test", env, name]
  {
    var rest := env + ['-'] + name;
    assert "test-" + env + "-" + name == "test" + ['-'] + rest;
    SplitHead("test", '-', rest, 2);
    SplitHead(env, '-', name, 1);
    assert Split(name, '-', 0) == [name];
  }

  lemma PlainHasNoTilde(env: string, name: string)
    requires '~' !in env && '~' !in name
    ensures '~' !in "test-" + env + "-" + name
  {
  }

  /** Parsing the printed form gives the parts back exactly when the variation, if
      there is one, is not the empty string, for every test whose name has no '~'. */
  lemma ReprRoundTrip(t: Instance, table: map<string, Info>)
    requires Supported(t, table) && '~' !in t.name
    ensures Parse(Repr(t), table) == Ok(Parsed(Some(t.env), t.name, t.variation)) <==> t.variation != Some("")
  {
    hide Parse, Split;
    EnvironmentsArePlain(t.env);
    SplitPlain(t.env, t.name);
    PlainHasNoTilde(t.env, t.name);
    ParseVariation("test-" + t.env + "-" + t.name, if t.variation == Some("") then None else t.variation, table);
  }

  /** Instances with the same printed form have the same environment and name. */
  lemma ReprNames(t: Instance, u: Instance, table: map<string, Info>)
    requires Supported(t, table) && '~' !in t.name
    requires Supported(u, table) && '~' !in u.name
    requires Repr(t) == Repr(u)
    ensures t.env == u.env && t.name == u.name
  {
    hide Parse, Split;
    forall x | x in {t, u}
      ensures Parse(Repr(x), table)
           == Ok(Parsed(Some(x.env), x.name, if x.variation == Some("") then None else x.variation))
    {
      EnvironmentsArePlain(x.env);
      SplitPlain(x.env, x.name);
      PlainHasNoTilde(x.env, x.name);
      ParseVariation("test-" + x.env + "-" + x.name, if x.variation == Some("") then None else x.variation, table);
    }
  }

  /** So equality of instances by their printed form is equality of their parts. */
  lemma ReprInjective(t: Instance, u: Instance, table: map<string, Info>)
    requires Supported(t, table) && '~' !in t.name && t.variation != Some("")
    requires Supported(u, table) && '~' !in u.name && u.variation != Some("")
    ensures Repr(t) == Repr(u) <==> t == u
  {
    ReprRoundTrip(t, table);
    ReprRoundTrip(u, table);
  }

  /** What the checks accept: a known name, an environment and a variation that its test
      has, if they are given. */
  predicate Acceptable(p: Parsed, table: map<string, Info>) {
    && p.name in table
    && (p.env.Some? ==> p.env.value in table[p.name].envs)
    && (p.variation.Some? ==> p.variation.value in table[p.name].variations)
  }

  lemma CheckIff(p: Parsed, table: map<string, Info>)
    ensures Check(p, table).Ok? <==> Acceptable(p, table)
    ensures Acceptable(p, table) ==> Check(p, table) == Ok(p)
    ensures Check(p, table) == Err(UnrecognisedName) <==> p.name !in table
    ensures Check(p, table) == Err(NoSuchEnvironment) <==>
            p.name in table && p.env.Some? && p.env.value !in table[p.name].envs
  {
  }

  lemma JoinMore(head: string, parts: seq<string>, sep: string)
    requires |parts| >= 1
    ensures Join([head] + parts, sep) == head + sep + Join(parts, sep)
  {
    assert ([head] + parts)[1..] == parts;
  }

  lemma {:induction false} JoinSplit(s: string, max: nat)
    ensures Join(Split(s, '-', max), "-") == s
    decreases max
  {
    hide Join;
    if max == 0 || '-' !in s {
      JoinOne(s);
    } else {
      var i := Find(s, '-');
      JoinSplit(s[i + 1..], max - 1);
      JoinMore(s[..i], Split(s[i + 1..], '-', max - 1), "-");
      assert s == s[..i] + "-" + s[i + 1..];
    }
  }

  lemma JoinOne(s: string)
    ensures Join([s], "-") == s
  {
  }

  /** `text` with the variation behind it, if there is one. */
  function Written(text: string, variation: Option<string>): string {
    if variation.Some? then text + "~" + variation.value else text
  }

  /** An argument is read as `p` if the checks accept that, and otherwise rejected. */
  predicate ReadAs(arg: string, p: Parsed, table: map<string, Info>) {
    if Acceptable(p, table) then Parse(arg, table) == Ok(p) else Parse(arg, table).Err?
  }

  /** The form $ENV-$NAME, with or without a variation: the name is all that follows the
      first '-', however many there are in it. */
  lemma EnvironmentAndName(env: string, name: string, variation: Option<string>, table: map<string, Info>)
    requires env in {"pv64", "pv32pae", "hvm64", "hvm32pae", "hvm32pse", "hvm32"} && '~' !in name
    ensures ReadAs(Written(env + "-" + name, variation), Parsed(Some(env), name, variation), table)
  {
    hide Parse, Split, Join, Check, Acceptable;
    EnvironmentsArePlain(env);
    var text := env + "-" + name;
    assert '~' !in text;
    assert text == env + ['-'] + name;
    SplitHead(env, '-', name, 2);
    JoinSplit(name, 1);
    var parts := Split(text, '-', 2);
    assert parts[1..] == Split(name, '-', 1);
    assert env != "test" by { assert env[0] == 'p' || env[0] == 'h'; }
    ParseVariation(text, variation, table);
    CheckIff(Parsed(Some(env), name, variation), table);
  }

  /** The form test-$ENV-$NAME. */
  lemma FullForm(env: string, name: string, variation: Option<string>, table: map<string, Info>)
    requires env in {"pv64", "pv32pae", "hvm64", "hvm32pae", "hvm32pse", "hvm32"} && '~' !in name
    ensures ReadAs(Written("test-" + env + "-" + name, variation), Parsed(Some(env), name, variation), table)
  {
    hide Parse, Split, Check, Acceptable;
    EnvironmentsArePlain(env);
    SplitPlain(env, name);
    PlainHasNoTilde(env, name);
    ParseVariation("test-" + env + "-" + name, variation, table);
    CheckIff(Parsed(Some(env), name, variation), table);
  }

  /** Whatever is accepted has passed the checks. */
  lemma OnlyAcceptable(arg: string, table: map<string, Info>)
    ensures Parse(arg, table).Ok? ==> Acceptable(Parse(arg, table).value, table)
  {
    hide Split, Join;
  }

  /** The short form: the bare name of a test is read as such exactly when it does
      not itself begin like one of the longer forms. */
  lemma BareName(name: string, table: map<string, Info>)
    requires name in table && '~' !in name
    ensures var parts := Split(name, '-', 2);
            Parse(name, table) == Ok(Parsed(None, name, None)) <==>
              !(parts[0] in ALL_ENVIRONMENTS) && !(|parts| == 3 && parts[0] == "test" && parts[1] in ALL_ENVIRONMENTS)
  {
    ParseVariation(name, None, table);
  }
}
