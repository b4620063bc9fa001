// Reading a "docker run" command line (pkg/deployer/docker_deployer.go).
module DockerCommand {
  import opened Common
  import Lists
  import Text

  // ---- strings.Fields ---------------------------------------------------

  function Word(s: string): (w: string)
    ensures w <= s
  {
    if s == "" || Text.IsSpace(s[0]) then "" else [s[0]] + Word(s[1..])
  }

  // The parts of the text between runs of white space.
  function Fields(s: string): seq<string>
    decreases |s|
  {
    if s == "" then []
    else if Text.IsSpace(s[0]) then Fields(s[1..])
    else [Word(s)] + Fields(s[|Word(s)|..])
  }

  predicate IsToken(t: string) {
    t != "" && forall i :: 0 <= i < |t| ==> !Text.IsSpace(t[i])
  }

  predicate AreTokens(ts: seq<string>) {
    forall i :: 0 <= i < |ts| ==> IsToken(ts[i])
  }

  // Characters strings.Fields splits at.
  predicate IsBlank(w: string) {
    forall i :: 0 <= i < |w| ==> w[i] as int in {9, 10, 11, 12, 13, 32}
  }

  lemma {:induction false} BlankIsSpace(w: string)
    ensures IsBlank(w) <==> Text.AllSpace(w)
  {
    forall i | 0 <= i < |w| {
      Text.SpaceIff(w[i]);
    }
  }

  lemma {:induction false} WordBeforeSpace(t: string, rest: string)
    requires (forall i :: 0 <= i < |t| ==> !Text.IsSpace(t[i])) && (rest != "" ==> Text.IsSpace(rest[0]))
    ensures Word(t + rest) == t
  {
    if t == "" {
      assert t + rest == rest;
    } else {
      assert (t + rest)[1..] == t[1..] + rest;
      WordBeforeSpace(t[1..], rest);
      assert [t[0]] + t[1..] == t;
    }
  }

  lemma {:induction false} FieldsAfterBlank(w: string, s: string)
    requires IsBlank(w)
    ensures Fields(w + s) == Fields(s)
  {
    BlankIsSpace(w);
    if w == "" {
      assert w + s == s;
    } else {
      assert (w + s)[1..] == w[1..] + s;
      FieldsAfterBlank(w[1..], s);
    }
  }

  // A token, and then white space or nothing.
  lemma {:induction false} FieldsOfToken(t: string, rest: string)
    requires IsToken(t) && (rest == "" || Text.IsSpace(rest[0]))
    ensures Fields(t + rest) == [t] + Fields(rest)
  {
    WordBeforeSpace(t, rest);
    assert (t + rest)[0] == t[0];
    assert (t + rest)[|t|..] == rest;
  }

  lemma {:induction false} WordIsToken(s: string)
    requires s != "" && !Text.IsSpace(s[0])
    ensures IsToken(Word(s)) && (Word(s) == s || Text.IsSpace(s[|Word(s)|]))
  {
    if |s| > 1 && !Text.IsSpace(s[1]) {
      WordIsToken(s[1..]);
    }
  }

  // White space of any kind and length divides a text into parts that are
  // split each for itself; white space alone has no parts.
  lemma {:induction false} FieldsOfDivided(s: string, w: string, t: string)
    requires w != "" && IsBlank(w)
    ensures Fields(s + (w + t)) == Fields(s) + Fields(t)
    ensures Fields(w) == []
    decreases |s|
  {
    FieldsAfterBlank(w, "");
    assert w + "" == w;
    if s == "" {
      assert s + (w + t) == w + t;
      FieldsAfterBlank(w, t);
    } else if Text.IsSpace(s[0]) {
      assert (s + (w + t))[1..] == s[1..] + (w + t);
      FieldsOfDivided(s[1..], w, t);
    } else {
      var word := Word(s);
      WordIsToken(s);
      FieldsOfDivided(s[|word|..], w, t);
      FieldsAfterWord(word, s[|word|..], w, t);
      assert s == word + s[|word|..];
    }
  }

  lemma {:induction false} FieldsAfterWord(word: string, rest: string, w: string, t: string)
    requires IsToken(word) && (rest == "" || Text.IsSpace(rest[0])) && w != "" && IsBlank(w)
    ensures Fields((word + rest) + (w + t)) == [word] + Fields(rest + (w + t))
    ensures Fields(word + rest) == [word] + Fields(rest)
  {
    BlankIsSpace(w);
    Lists.Regroup(word, rest, w + t);
    FieldsOfToken(word, rest + (w + t));
    FieldsOfToken(word, rest);
  }

  // Tokens with white space before, between and after them; only the first
  // and the last may be empty.
  predicate Separates(gaps: seq<string>, n: nat) {
    && |gaps| == n + 1
    && (forall i :: 0 <= i <= n ==> IsBlank(gaps[i]))
    && (forall i :: 0 < i < n ==> gaps[i] != "")
  }

  function Spaced(tokens: seq<string>, gaps: seq<string>): string
    requires |gaps| == |tokens| + 1
  {
    if tokens == [] then gaps[0] else gaps[0] + (tokens[0] + Spaced(tokens[1..], gaps[1..]))
  }

  // Splitting finds the tokens, however they are spaced.
  lemma {:induction false} FieldsOfSpaced(tokens: seq<string>, gaps: seq<string>)
    requires AreTokens(tokens) && Separates(gaps, |tokens|)
    ensures Fields(Spaced(tokens, gaps)) == tokens
  {
    if tokens == [] {
      FieldsAfterBlank(gaps[0], "");
      assert gaps[0] + "" == gaps[0];
    } else {
      var t, rest := tokens[0], Spaced(tokens[1..], gaps[1..]);
      FieldsOfSpaced(tokens[1..], gaps[1..]);
      RestBeginsBlank(tokens, gaps);
      FieldsOfToken(t, rest);
      FieldsAfterBlank(gaps[0], t + rest);
      assert tokens == [t] + tokens[1..];
    }
  }

  lemma {:induction false} RestBeginsBlank(tokens: seq<string>, gaps: seq<string>)
    requires tokens != [] && Separates(gaps, |tokens|)
    ensures var rest := Spaced(tokens[1..], gaps[1..]); rest == "" || Text.IsSpace(rest[0])
    ensures Separates(gaps[1..], |tokens| - 1)
  {
    BlankIsSpace(gaps[1]);
  }

  // ---- The parser -------------------------------------------------------

  datatype Parsed = Parsed(image: string, env: map<string, string>)

  const DEFAULT_PORT := 8000

  datatype Command = Command(image: string, env: map<string, string>, port: int)

  // strings.Index of '=', or None.
  function EqualsAt(s: string): (i: Option<nat>)
    ensures i.Some? ==> i.value < |s| && s[i.value] == '=' && '=' !in s[..i.value]
    ensures i.None? ==> '=' !in s
  {
    if s == "" then None
    else if s[0] == '=' then Some(0)
    else
      match EqualsAt(s[1..])
      case None => assert s == [s[0]] + s[1..]; None
      case Some(i) => assert s[..i + 1] == [s[0]] + s[1..][..i]; Some(i + 1)
  }

  // The token after "-e" counts when it reads KEY=VALUE with a key.
  function WithPair(env: map<string, string>, pair: string): map<string, string> {
    match EqualsAt(pair)
    case None => env
    case Some(i) => if i > 0 then env[pair[..i] := pair[i + 1..]] else env
  }

  predicate IsDashed(t: string) {
    "-" <= t
  }

  function Scan(args: seq<string>, p: Parsed): Parsed {
    if args == [] then p
    else if args[0] == "-e" && |args| > 1 then Scan(args[2..], p.(env := WithPair(p.env, args[1])))
    else if !IsDashed(args[0]) && p.image == "" then Scan(args[1..], p.(image := args[0]))
    else Scan(args[1..], p)
  }

  function Parse(command: string): Result<Command> {
    var parts := Fields(command);
    if |parts| < 2 || parts[0] != "docker" || parts[1] != "run" then Err("invalid docker run command format")
    else
      var p := Scan(parts[2..], Parsed("", map[]));
      if p.image == "" then Err("no image found in docker command")
      else Ok(Command(p.image, p.env, DEFAULT_PORT))
  }

  method ParseDockerCommand(command: string) returns (r: Result<Command>)
    ensures r == Parse(command)
  {
    var envVars: map<string, string> := map[];
    var image := "";
    var port := 8000;
    var parts := Fields(command);
    if |parts| < 2 || parts[0] != "docker" || parts[1] != "run" {
      return Err("invalid docker run command format");
    }
    var i := 2;
    while i < |parts|
      invariant 2 <= i <= |parts|
      invariant Scan(parts[2..], Parsed("", map[])) == Scan(parts[i..], Parsed(image, envVars))
    {
      var arg := parts[i];
      assert parts[i..][1..] == parts[i + 1..];
      if arg == "-e" && i + 1 < |parts| {
        assert parts[i..][2..] == parts[i + 2..];
        var envPair := parts[i + 1];
        var eqIndex := EqualsAt(envPair);
        if eqIndex.Some? && eqIndex.value > 0 {
          envVars := envVars[envPair[..eqIndex.value] := envPair[eqIndex.value + 1..]];
        }
        i := i + 1;
      } else if !IsDashed(arg) && image == "" {
        image := arg;
      }
      i := i + 1;
    }
    if image == "" {
      return Err("no image found in docker command");
    }
    r := Ok(Command(image, envVars, port));
  }

  // deployFromDockerCommand lets additional variables win.
  method MergeEnv(env: map<string, string>, additional: map<string, string>) returns (merged: map<string, string>)
    ensures merged == env + additional
  {
    merged := env;
    var rest := additional.Keys;
    while rest != {}
      invariant rest <= additional.Keys
      invariant merged.Keys <= env.Keys + additional.Keys && env.Keys <= merged.Keys && additional.Keys - rest <= merged.Keys
      invariant forall k :: k in merged ==> merged[k] == if k in additional && k !in rest then additional[k] else if k in env then env[k] else merged[k]
      invariant forall k :: k in merged ==> k in env || (k in additional && k !in rest)
    {
      var k :| k in rest;
      merged := merged[k := additional[k]];
      rest := rest - {k};
    }
  }

  // ---- Printing, and what parsing makes of it ---------------------------

  // A part of a command line: a flag of one token, a flag with its value as
  // the next token, a variable, "-e" with a token that sets none, or an
  // argument.
  datatype Item =
    | Flag(text: string)
    | Valued(flag: string, setting: string)
    | Env(key: string, value: string)
    | Lone(pair: string)
    | Arg(text: string)

  function Tokens(items: seq<Item>): seq<string> {
    if items == [] then []
    else
      (match items[0]
       case Flag(t) => [t]
       case Valued(f, v) => [f, v]
       case Env(k, v) => ["-e", k + "=" + v]
       case Lone(t) => ["-e", t]
       case Arg(t) => [t]) + Tokens(items[1..])
  }

  // The variables of the items, later ones winning.
  function EnvOf(items: seq<Item>, env: map<string, string>): map<string, string> {
    if items == [] then env
    else EnvOf(items[1..], if items[0].Env? then env[items[0].key := items[0].value] else env)
  }

  // No '=', or nothing before it.
  predicate SetsNothing(t: string) {
    '=' !in t || t[0] == '='
  }

  // Before the image: flags other than "-e", with or without a value, and
  // variables. After it: any arguments other than "-e", and variables still.
  predicate GoesBefore(x: Item) {
    match x
    case Flag(t) => IsDashed(t) && t != "-e"
    case Valued(f, v) => IsDashed(f) && f != "-e" && v != "" && !IsDashed(v)
    case Env(k, _) => k != "" && '=' !in k
    case Lone(t) => SetsNothing(t)
    case Arg(_) => false
  }

  predicate GoesAfter(x: Item) {
    match x
    case Flag(t) => t != "-e"
    case Valued(f, v) => f != "-e" && v != "-e"
    case Env(k, _) => k != "" && '=' !in k
    case Lone(t) => SetsNothing(t)
    case Arg(t) => t != "-e"
  }

  lemma {:induction false} PairOfPrinted(env: map<string, string>, key: string, value: string)
    requires key != "" && '=' !in key
    ensures WithPair(env, key + "=" + value) == env[key := value]
  {
    var pair := key + "=" + value;
    var i := EqualsAt(pair);
    assert pair[|key|] == '=';
    assert i.Some?;
    Text.CutAtFirst(pair[..i.value], key, pair[i.value + 1..], value, '=');
  }

  lemma {:induction false} PairOfLone(env: map<string, string>, t: string)
    requires SetsNothing(t)
    ensures WithPair(env, t) == env
  {
    var i := EqualsAt(t);
    assert i.Some? ==> t[i.value] in t;
  }

  // What stands first as a token of its own: the value of the first flag
  // that has one, or else the image.
  function FirstSetting(items: seq<Item>, image: string): string {
    if items == [] then image
    else if items[0].Valued? then items[0].setting
    else FirstSetting(items[1..], image)
  }

  // The items before the image are read for their variables, and the first
  // separate value is kept as the image.
  lemma {:induction false} ScanBefore(items: seq<Item>, rest: seq<string>, p: Parsed)
    requires forall i :: 0 <= i < |items| ==> GoesBefore(items[i])
    ensures Scan(Tokens(items) + rest, p) ==
            Scan(rest, Parsed(if p.image != "" then p.image else FirstSetting(items, ""), EnvOf(items, p.env)))
  {
    if items == [] {
      assert Tokens(items) + rest == rest;
    } else {
      var args, tail := Tokens(items) + rest, Tokens(items[1..]) + rest;
      if items[0].Env? {
        var k, v := items[0].key, items[0].value;
        PairOfPrinted(p.env, k, v);
        assert args[0] == "-e" && args[1] == k + "=" + v && args[2..] == tail;
        ScanBefore(items[1..], rest, p.(env := p.env[k := v]));
      } else if items[0].Lone? {
        PairOfLone(p.env, items[0].pair);
        assert args[0] == "-e" && args[1] == items[0].pair && args[2..] == tail;
        ScanBefore(items[1..], rest, p);
      } else if items[0].Valued? {
        var f, v := items[0].flag, items[0].setting;
        assert args[0] == f && args[1] == v && args[1..][1..] == tail;
        ScanBefore(items[1..], rest, if p.image == "" then p.(image := v) else p);
      } else {
        assert args[0] == items[0].text && args[1..] == tail;
        ScanBefore(items[1..], rest, p);
      }
    }
  }

  lemma {:induction false} ScanAfter(items: seq<Item>, image: string, env: map<string, string>)
    requires image != "" && forall i :: 0 <= i < |items| ==> GoesAfter(items[i])
    ensures Scan(Tokens(items), Parsed(image, env)) == Parsed(image, EnvOf(items, env))
  {
    if items != [] {
      var args := Tokens(items);
      match items[0] {
        case Env(k, v) =>
          PairOfPrinted(env, k, v);
          assert args[0] == "-e" && args[1] == k + "=" + v && args[2..] == Tokens(items[1..]);
          ScanAfter(items[1..], image, env[k := v]);
        case Lone(t) =>
          PairOfLone(env, t);
          assert args[0] == "-e" && args[1] == t && args[2..] == Tokens(items[1..]);
          ScanAfter(items[1..], image, env);
        case Valued(f, v) =>
          assert args[0] == f && args[1] == v && args[1..][1..] == Tokens(items[1..]);
          ScanAfter(items[1..], image, env);
        case _ =>
          assert args[0] == items[0].text && args[1..] == Tokens(items[1..]);
          ScanAfter(items[1..], image, env);
      }
    }
  }

  // Once found, an image stays, whatever follows.
  lemma {:induction false} ImageStays(args: seq<string>, p: Parsed)
    requires p.image != ""
    ensures Scan(args, p).image == p.image
  {
    if args != [] {
      if args[0] == "-e" && |args| > 1 {
        ImageStays(args[2..], p.(env := WithPair(p.env, args[1])));
      } else {
        ImageStays(args[1..], p);
      }
    }
  }

  lemma {:induction false} EnvOfConcat(xs: seq<Item>, ys: seq<Item>, env: map<string, string>)
    ensures EnvOf(xs + ys, env) == EnvOf(ys, EnvOf(xs, env))
  {
    if xs == [] {
      assert xs + ys == ys;
    } else {
      assert (xs + ys)[1..] == xs[1..] + ys;
      EnvOfConcat(xs[1..], ys, if xs[0].Env? then env[xs[0].key := xs[0].value] else env);
    }
  }

  // "docker run", then what stands before the image, the image, and the rest.
  function CommandLine(before: seq<Item>, image: string, after: seq<string>): seq<string> {
    ["docker", "run"] + Tokens(before) + [image] + after
  }

  // The first of the flags with a separate value.
  predicate FirstValuedAt(items: seq<Item>, i: nat) {
    i < |items| && items[i].Valued? && forall j :: 0 <= j < i ==> !items[j].Valued?
  }

  // No flag before the image has a separate value, or the first such value
  // is the image's very text.
  ghost predicate ImageLeads(before: seq<Item>, image: string) {
    forall i: nat :: FirstValuedAt(before, i) ==> before[i].setting == image
  }

  lemma {:induction false} FirstSettingIff(items: seq<Item>, image: string)
    ensures FirstSetting(items, image) == image <==> ImageLeads(items, image)
  {
    if items != [] {
      if items[0].Valued? {
        assert FirstValuedAt(items, 0);
      } else {
        var tail := items[1..];
        FirstSettingIff(tail, image);
        forall i: nat | FirstValuedAt(tail, i)
          ensures FirstValuedAt(items, i + 1) && tail[i] == items[i + 1]
        {
          assert forall j :: 0 < j < i + 1 ==> items[j] == tail[j - 1];
        }
        forall i: nat | i > 0 && FirstValuedAt(items, i)
          ensures FirstValuedAt(tail, i - 1) && tail[i - 1] == items[i]
        {
          assert forall j :: 0 <= j < i - 1 ==> tail[j] == items[j + 1];
        }
        assert !FirstValuedAt(items, 0);
      }
    }
  }

  lemma {:induction false} ScanCommandLine(before: seq<Item>, image: string, after: seq<string>)
    requires forall i :: 0 <= i < |before| ==> GoesBefore(before[i])
    requires image != "" && !IsDashed(image)
    ensures Scan(CommandLine(before, image, after)[2..], Parsed("", map[])) ==
            Scan(after, Parsed(FirstSetting(before, image), EnvOf(before, map[])))
    ensures FirstSetting(before, image) != ""
  {
    var rest := [image] + after;
    assert CommandLine(before, image, after)[2..] == Tokens(before) + rest;
    ScanBefore(before, rest, Parsed("", map[]));
    FirstSettingOr(before, image);
    assert rest[1..] == after;
  }

  lemma {:induction false} FirstSettingOr(items: seq<Item>, image: string)
    requires forall i :: 0 <= i < |items| ==> GoesBefore(items[i])
    ensures FirstSetting(items, image) == if FirstSetting(items, "") == "" then image else FirstSetting(items, "")
  {
    if items != [] && !items[0].Valued? {
      FirstSettingOr(items[1..], image);
    }
  }

  // However the tokens are spaced: for any flags and variables before the
  // image and any tokens after it, parsing succeeds; the image it finds is
  // the first flag value written as a token of its own, if there is one. So
  // the image is found exactly when no flag has a separate value, or the
  // first such value reads the same.
  lemma {:induction false} ImageFoundIff(before: seq<Item>, image: string, after: seq<string>, gaps: seq<string>)
    requires forall i :: 0 <= i < |before| ==> GoesBefore(before[i])
    requires !IsDashed(image) && AreTokens(CommandLine(before, image, after))
    requires Separates(gaps, |CommandLine(before, image, after)|)
    ensures var r := Parse(Spaced(CommandLine(before, image, after), gaps));
            && r.Ok?
            && r.value.image == FirstSetting(before, image)
            && (r.value.image == image <==> ImageLeads(before, image))
            && r.value.port == 8000
  {
    var parts := CommandLine(before, image, after);
    FieldsOfSpaced(parts, gaps);
    assert parts[2 + |Tokens(before)|] == image;
    ScanCommandLine(before, image, after);
    ImageStays(after, Parsed(FirstSetting(before, image), EnvOf(before, map[])));
    FirstSettingIff(before, image);
  }

  // A printed command, however its tokens are spaced, parses to its image and
  // its variables, the last setting of each one, wherever in the command it
  // stands; a separate flag value changes the image only.
  lemma {:induction false} ParseUndoesPrint(before: seq<Item>, image: string, after: seq<Item>, gaps: seq<string>)
    requires forall i :: 0 <= i < |before| ==> GoesBefore(before[i])
    requires forall i :: 0 <= i < |after| ==> GoesAfter(after[i])
    requires !IsDashed(image) && AreTokens(CommandLine(before, image, Tokens(after)))
    requires Separates(gaps, |CommandLine(before, image, Tokens(after))|)
    ensures var r := Parse(Spaced(CommandLine(before, image, Tokens(after)), gaps));
            && r == Ok(Command(FirstSetting(before, image), EnvOf(before + after, map[]), 8000))
            && (r == Ok(Command(image, EnvOf(before + after, map[]), 8000)) <==> ImageLeads(before, image))
  {
    var parts := CommandLine(before, image, Tokens(after));
    FieldsOfSpaced(parts, gaps);
    assert parts[2 + |Tokens(before)|] == image;
    ScanCommandLine(before, image, Tokens(after));
    ScanAfter(after, FirstSetting(before, image), EnvOf(before, map[]));
    EnvOfConcat(before, after, map[]);
    FirstSettingIff(before, image);
  }

  // Any tokens divide into flags and variables, and what begins with the
  // first undashed token, or nothing, or a last "-e" alone.
  lemma {:induction false} EveryCommandDivides(args: seq<string>) returns (before: seq<Item>, rest: seq<string>)
    requires AreTokens(args)
    ensures args == Tokens(before) + rest
    ensures forall i :: 0 <= i < |before| ==> GoesBefore(before[i]) && !before[i].Valued?
    ensures rest == [] || rest == ["-e"] || !IsDashed(rest[0])
  {
    if args == [] || args == ["-e"] || !IsDashed(args[0]) {
      before, rest := [], args;
    } else {
      var item, n := FirstItem(args);
      var more;
      more, rest := EveryCommandDivides(args[n..]);
      before := [item] + more;
      assert before[1..] == more;
      Lists.Regroup(Tokens([item]), Tokens(more), rest);
      assert args == args[..n] + args[n..];
    }
  }

  // The flag or variable a command's tokens begin with.
  lemma {:induction false} FirstItem(args: seq<string>) returns (item: Item, n: nat)
    requires args != [] && args != ["-e"] && IsDashed(args[0])
    ensures 0 < n <= |args| && args[..n] == Tokens([item])
    ensures GoesBefore(item) && !item.Valued?
    ensures forall more :: Tokens([item] + more) == Tokens([item]) + Tokens(more)
  {
    if args[0] == "-e" {
      item := ItemOfPair(args[1]);
      n := 2;
      assert args[..2] == ["-e", args[1]];
    } else {
      item, n := Flag(args[0]), 1;
      assert [item][1..] == [];
    }
    forall more
      ensures Tokens([item] + more) == Tokens([item]) + Tokens(more)
    {
      assert ([item] + more)[1..] == more && [item][1..] == [];
    }
  }

  lemma {:induction false} ItemOfPair(t: string) returns (item: Item)
    ensures (item.Env? || item.Lone?) && GoesBefore(item) && Tokens([item]) == ["-e", t]
  {
    match EqualsAt(t)
    case None => item := Lone(t);
    case Some(i) =>
      item := if i == 0 then Lone(t) else Env(t[..i], t[i + 1..]);
      assert t == t[..i] + "=" + t[i + 1..];
    assert [item][1..] == [];
  }

  // Tokens that are not those of a "docker run" are refused, and so are flags
  // and variables without an undashed token after them.
  lemma {:induction false} RefusedWithoutImage(parts: seq<string>, before: seq<Item>, last: seq<string>, gaps: seq<string>)
    requires AreTokens(parts) && Separates(gaps, |parts|)
    requires forall i :: 0 <= i < |before| ==> GoesBefore(before[i]) && !before[i].Valued?
    requires last == [] || last == ["-e"]
    ensures !(["docker", "run"] <= parts) ==> Parse(Spaced(parts, gaps)) == Err("invalid docker run command format")
    ensures parts == ["docker", "run"] + (Tokens(before) + last) ==> Parse(Spaced(parts, gaps)) == Err("no image found in docker command")
  {
    FieldsOfSpaced(parts, gaps);
    if parts == ["docker", "run"] + (Tokens(before) + last) {
      assert parts[2..] == Tokens(before) + last;
      ScanBefore(before, last, Parsed("", map[]));
      NoSetting(before);
      assert last != [] ==> last[1..] == [];
    }
  }

  lemma {:induction false} NoSetting(items: seq<Item>)
    requires forall i :: 0 <= i < |items| ==> !items[i].Valued?
    ensures FirstSetting(items, "") == ""
  {
    if items != [] {
      NoSetting(items[1..]);
    }
  }

  // In the simplest case the value of a flag stands for the image, and the
  // real image for an argument.
  lemma {:induction false} SeparateFlagValueTakenForImage(flag: string, value: string, image: string, gaps: seq<string>)
    requires IsToken(flag) && IsToken(value) && IsToken(image)
    requires IsDashed(flag) && flag != "-e" && !IsDashed(value) && !IsDashed(image)
    requires Separates(gaps, 5)
    ensures var r := Parse(Spaced(["docker", "run", flag, value, image], gaps));
            r.Ok? && r.value.image == value
  {
    var before := [Valued(flag, value)];
    assert Tokens(before) == [flag, value] by { assert before[1..] == []; }
    assert CommandLine(before, image, []) == ["docker", "run", flag, value, image];
    ImageFoundIff(before, image, [], gaps);
  }
}
