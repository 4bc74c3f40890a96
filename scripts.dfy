/** The scripting engine's selection and command assembly: reading the `#` header of a script
    file into TOML text, keeping the scripts whose headers parse, choosing the scripts to run
    by mode and tags, and assembling what a script invocation is filled with. TOML decoding,
    the file system and the home directory are parameters of `ScriptEnv`. */
module Scripts {
  import opened Wrappers
  import opened Text
  import opened IpNet
  import opened Seqs

  /** `u16`, the type of a scanned port. */
  newtype Port = p: int | 0 <= p < 0x1_0000

  /** `ScriptFile`: the fields a script header may define; `path` is where it was read from. */
  datatype ScriptFile = ScriptFile(
    path: Option<string>,
    tags: Option<seq<string>>,
    developer: Option<seq<string>>,
    port: Option<string>,
    portsSeparator: Option<string>,
    callFormat: Option<string>)

  /** `ScriptConfig`, the contents of `.rustscan_scripts.toml`. */
  datatype ScriptConfig = ScriptConfig(
    tags: Option<seq<string>>,
    ports: Option<seq<string>>,
    developer: Option<seq<string>>,
    directory: Option<string>)

  /** `ScriptsRequired`; its `None` variant is called `NoScripts` here. */
  datatype ScriptsRequired = NoScripts | Default | Custom

  /** What the engine reads from outside:
      - `files`: the files that open, each as the items `lines()` yields (`None` for a line
        that cannot be read as UTF-8);
      - `dirs`: the directories, each as the paths `read_dir` lists;
      - `homeDir`: `dirs::home_dir()`;
      - `config`: `ScriptConfig::read_config()`, `None` when the home directory, the file or
        its TOML fails;
      - `parseHeader`: `toml::from_str::<ScriptFile>`, `None` on a TOML error. */
  datatype ScriptEnv = ScriptEnv(
    files: map<string, seq<Option<string>>>,
    dirs: map<string, seq<string>>,
    homeDir: Option<string>,
    config: Option<ScriptConfig>,
    parseHeader: string -> Option<ScriptFile>)

  /** The script embedded as `DEFAULT`, as its TOML decodes. */
  const DefaultScript := ScriptFile(
    None,
    Some(["core_approved", "RustScan", "default"]),
    Some(["RustScan", "https://github.com/RustScan"]),
    None,
    Some(","),
    Some("nmap -vvv -p {{port}} -{{ipversion}} {{ip}}"))

  // ---------------------------------------------------------------------------------------
  // The header of a script file

  /** `lines().skip(1)`: every line but the first. */
  function Rest(lines: seq<Option<string>>): seq<Option<string>> {
    if lines == [] then [] else lines[1..]
  }

  /** Before the newline `CleanLine` appends lies the trimmed text, a slice of the line. */
  lemma TrimmedBody(line: string, r: string)
    requires r == Trim(RemoveAll(line, '#')) + "\n"
    ensures var kept := RemoveAll(line, '#');
            exists lo, hi :: 0 <= lo <= hi <= |kept| && r[..|r| - 1] == kept[lo..hi]
                             && (forall i :: 0 <= i < lo ==> IsWhitespace(kept[i]))
                             && (forall i :: hi <= i < |kept| ==> IsWhitespace(kept[i]))
  {
    var kept := RemoveAll(line, '#');
    var lo, hi := TrimBounds(kept);
    assert r[..|r| - 1] == kept[lo..hi];
  }

  /** A header line with every `#` removed, trimmed, and ended by a newline: what comes
      before the final newline is a slice of the `#`-free line with only whitespace cut at
      either end and no whitespace left at either end, so the newline is the only one at the
      end of the line. */
  function CleanLine(line: string): (r: string)
    ensures '#' !in r
    ensures |r| >= 1 && r[|r| - 1] == '\n'
    ensures var kept := RemoveAll(line, '#');
            exists lo, hi :: 0 <= lo <= hi <= |kept| && r[..|r| - 1] == kept[lo..hi]
                             && (forall i :: 0 <= i < lo ==> IsWhitespace(kept[i]))
                             && (forall i :: hi <= i < |kept| ==> IsWhitespace(kept[i]))
    ensures var body := r[..|r| - 1];
            body == [] || (!IsWhitespace(body[0]) && !IsWhitespace(body[|body| - 1]))
  {
    var kept := RemoveAll(line, '#');
    TrimKeepsCharacters(kept);
    var body := Trim(kept);
    var r := body + "\n";
    TrimmedBody(line, r);
    r
  }

  /** What the line loop of `ScriptFile::new` collects from the lines after the first: an
      unreadable line is passed over, a line that starts with `#` adds its cleaned form, and
      any other line ends the header. */
  function Collect(rest: seq<Option<string>>): string {
    if rest == [] then ""
    else if rest[0].None? then Collect(rest[1..])
    else if StartsWith(rest[0].value, '#') then CleanLine(rest[0].value) + Collect(rest[1..])
    else ""
  }

  /** The TOML text `ScriptFile::new` collects from a script's lines. */
  function HeaderText(lines: seq<Option<string>>): string {
    Collect(Rest(lines))
  }

  /** `flatten()` over the lines: the lines that were read, in order. */
  function Present(lines: seq<Option<string>>): (r: seq<string>)
    ensures |r| <= |lines|
  {
    if lines == [] then []
    else
      var last := lines[|lines| - 1];
      Present(lines[..|lines| - 1]) + (if last.Some? then [last.value] else [])
  }

  lemma {:induction false} PresentAppend(a: seq<Option<string>>, b: seq<Option<string>>)
    ensures Present(a + b) == Present(a) + Present(b)
    decreases |b|
  {
    if b == [] {
      assert a + b == a;
    } else {
      PresentAppend(a, b[..|b| - 1]);
      assert (a + b)[..|a + b| - 1] == a + b[..|b| - 1];
    }
  }

  /** The lines up to the first one that does not start with `#`: the longest prefix of
      comment lines. */
  function CommentRun(ls: seq<string>): (r: seq<string>)
    ensures |r| <= |ls| && r == ls[..|r|]
    ensures forall i :: 0 <= i < |r| ==> StartsWith(r[i], '#')
    ensures |r| < |ls| ==> !StartsWith(ls[|r|], '#')
  {
    if ls != [] && StartsWith(ls[0], '#') then [ls[0]] + CommentRun(ls[1..]) else []
  }

  /** A run of comment lines is its own comment run, and whatever follows it is considered. */
  lemma {:induction false} CommentRunAppend(a: seq<string>, b: seq<string>)
    requires forall i :: 0 <= i < |a| ==> StartsWith(a[i], '#')
    ensures CommentRun(a + b) == a + CommentRun(b)
  {
    if a != [] {
      CommentRunAppend(a[1..], b);
      assert (a + b)[1..] == a[1..] + b;
    } else {
      assert a + b == b;
    }
  }

  /** The lines the header is made of: after the first line, with the unreadable lines
      dropped, the run of lines that start with `#`. */
  function HeaderLines(lines: seq<Option<string>>): seq<string> {
    CommentRun(Present(Rest(lines)))
  }

  /** Reading the first line first. */
  lemma PresentFront(lines: seq<Option<string>>)
    requires lines != []
    ensures Present(lines) == (if lines[0].Some? then [lines[0].value] else []) + Present(lines[1..])
  {
    PresentAppend([lines[0]], lines[1..]);
    assert [lines[0]][..0] == [];
    assert [lines[0]] + lines[1..] == lines;
  }

  /** What the loop collects is the cleaned comment run of the readable lines. */
  lemma {:induction false} CollectIsCommentRun(rest: seq<Option<string>>)
    ensures Collect(rest) == ConcatMap(CleanLine, CommentRun(Present(rest)))
  {
    if rest != [] {
      var tail := rest[1..];
      CollectIsCommentRun(tail);
      PresentFront(rest);
      if rest[0].None? {
        assert Present(rest) == Present(tail);
      } else if StartsWith(rest[0].value, '#') {
        var l := rest[0].value;
        var run := CommentRun(Present(tail));
        assert CommentRun(Present(rest)) == [l] + run by {
          CommentRunAppend([l], Present(tail));
        }
        ConcatMapCons(CleanLine, l, run);
      } else {
        assert CommentRun(Present(rest)) == [];
      }
    }
  }

  /** The header is the cleaned lines of the comment run, in order. */
  lemma HeaderTextIsCommentRun(lines: seq<Option<string>>)
    ensures HeaderText(lines) == ConcatMap(CleanLine, HeaderLines(lines))
    ensures forall l :: l in HeaderLines(lines) ==> StartsWith(l, '#')
  {
    CollectIsCommentRun(Rest(lines));
  }

  /** The collected text holds no `#`: every comment marker is removed. */
  lemma {:induction false} CollectHasNoHash(rest: seq<Option<string>>)
    ensures '#' !in Collect(rest)
  {
    if rest != [] {
      CollectHasNoHash(rest[1..]);
    }
  }

  /** The header holds no `#`. */
  lemma HeaderHasNoHash(lines: seq<Option<string>>)
    ensures '#' !in HeaderText(lines)
  {
    CollectHasNoHash(Rest(lines));
  }

  /** The first line is never read, whatever it holds. */
  lemma HeaderSkipsFirstLine(first: Option<string>, other: Option<string>, rest: seq<Option<string>>)
    ensures HeaderText([first] + rest) == HeaderText([other] + rest)
  {
    assert Rest([first] + rest) == rest == Rest([other] + rest);
  }

  /** Lines after a plain line are never read. */
  lemma {:induction false} CollectStops(rest: seq<Option<string>>, more: seq<Option<string>>, k: nat)
    requires k < |rest| && rest[k].Some? && !StartsWith(rest[k].value, '#')
    ensures Collect(rest + more) == Collect(rest)
  {
    var all := rest + more;
    assert all[0] == rest[0];
    if k == 0 {
      assert Collect(all) == "" == Collect(rest);
    } else {
      assert all[1..] == rest[1..] + more;
      assert rest[1..][k - 1] == rest[k];
      CollectStops(rest[1..], more, k - 1);
      assert Collect(all[1..]) == Collect(rest[1..]);
    }
  }

  /** Extraction stops at the first read line after the first that does not start with `#`:
      nothing after it changes the header. */
  lemma HeaderStopsAtPlainLine(lines: seq<Option<string>>, more: seq<Option<string>>, k: nat)
    requires 1 <= k < |lines| && lines[k].Some? && !StartsWith(lines[k].value, '#')
    ensures HeaderText(lines + more) == HeaderText(lines)
  {
    assert Rest(lines + more) == Rest(lines) + more;
    CollectStops(Rest(lines), more, k - 1);
  }

  /** `ScriptFile::new`: the header of a file that opens, parsed as TOML, with `path` set to
      where the file was read from. */
  function ScriptFileOf(env: ScriptEnv, path: string): (r: Option<ScriptFile>)
    ensures path !in env.files ==> r.None?
    ensures r.Some? ==> r.value.path == Some(path)
  {
    if path !in env.files then None
    else
      match env.parseHeader(HeaderText(env.files[path]))
      case None => None
      case Some(parsed) => Some(parsed.(path := Some(path)))
  }

  /** `ScriptFile::new`. */
  method NewScriptFile(env: ScriptEnv, path: string) returns (r: Option<ScriptFile>)
    ensures r == ScriptFileOf(env, path)
  {
    if path !in env.files {
      return None;
    }
    var buf := ReadHeader(env.files[path]);
    match env.parseHeader(buf) {
      case None => return None;
      case Some(parsed) => return Some(parsed.(path := Some(path)));
    }
  }

  /** The line loop of `ScriptFile::new`: skip the first line and the unreadable ones, then
      clean and collect lines while they start with `#`. */
  method ReadHeader(lines: seq<Option<string>>) returns (buf: string)
    ensures buf == HeaderText(lines)
  {
    var rest := Rest(lines);
    buf := "";
    for k := 0 to |rest|
      invariant buf + Collect(rest[k..]) == Collect(rest)
    {
      assert rest[k..][1..] == rest[k + 1..];
      if rest[k].Some? {
        var line := rest[k].value;
        if StartsWith(line, '#') {
          line := RemoveAll(line, '#');
          line := Trim(line);
          line := line + "\n";
          assert buf + line + Collect(rest[k + 1..]) == buf + (line + Collect(rest[k + 1..]));
          buf := buf + line;
        } else {
          assert buf + "" == buf;
          break;
        }
      }
    }
  }

  // ---------------------------------------------------------------------------------------
  // parse_scripts

  /** What `parse_scripts` returns: the scripts that parsed, in the order of their paths. */
  function Parsed(env: ScriptEnv, paths: seq<string>): seq<ScriptFile> {
    if paths == [] then []
    else
      var front := Parsed(env, paths[..|paths| - 1]);
      match ScriptFileOf(env, paths[|paths| - 1])
      case None => front
      case Some(s) => front + [s]
  }

  /** The paths whose script parsed. */
  function Succeeded(env: ScriptEnv, paths: seq<string>): seq<string> {
    Filter(p => ScriptFileOf(env, p).Some?, paths)
  }

  /** `parse_scripts` keeps exactly the paths whose script parsed, in their order, each with
      its own parsed script; so it never returns more scripts than it got paths. */
  lemma {:induction false} ParsedExactly(env: ScriptEnv, paths: seq<string>)
    ensures |Parsed(env, paths)| == |Succeeded(env, paths)| <= |paths|
    ensures forall i :: 0 <= i < |Parsed(env, paths)| ==>
              ScriptFileOf(env, Succeeded(env, paths)[i]) == Some(Parsed(env, paths)[i])
  {
    if paths != [] {
      var front := paths[..|paths| - 1];
      ParsedExactly(env, front);
      FilterMembers(p => ScriptFileOf(env, p).Some?, paths, paths[0]);
    }
  }

  /** Every parsed script carries the path of a file it was read from. */
  lemma ParsedPaths(env: ScriptEnv, paths: seq<string>, s: ScriptFile)
    requires s in Parsed(env, paths)
    ensures s.path.Some? && s.path.value in paths && s.path.value in env.files
  {
    ParsedExactly(env, paths);
    var i :| 0 <= i < |Parsed(env, paths)| && Parsed(env, paths)[i] == s;
    var p := Succeeded(env, paths)[i];
    assert p in Succeeded(env, paths);
    FilterMembers(p => ScriptFileOf(env, p).Some?, paths, p);
  }

  /** `parse_scripts`. */
  method ParseScripts(env: ScriptEnv, paths: seq<string>) returns (parsed: seq<ScriptFile>)
    ensures parsed == Parsed(env, paths)
  {
    parsed := [];
    for k := 0 to |paths|
      invariant parsed == Parsed(env, paths[..k])
    {
      assert paths[..k + 1][..k] == paths[..k];
      var script := NewScriptFile(env, paths[k]);
      if script.Some? {
        parsed := parsed + [script.value];
      }
    }
    assert paths[..|paths|] == paths;
  }

  // ---------------------------------------------------------------------------------------
  // init_scripts

  /** The rule the code applies: the script has tags, and each of them is a config tag. */
  predicate Selects(configTags: seq<string>, s: ScriptFile) {
    s.tags.Some? && forall t :: t in s.tags.value ==> t in configTags
  }

  /** The scripts custom mode runs: none without config tags, else the selected ones. */
  function Selected(configTags: Option<seq<string>>, scripts: seq<ScriptFile>): seq<ScriptFile> {
    match configTags
    case None => []
    case Some(ct) => Filter(s => Selects(ct, s), scripts)
  }

  /** A script is selected exactly when the config has tags, the script has tags, and every
      one of its tags is a config tag; an untagged script never is. */
  lemma SelectedExactly(configTags: Option<seq<string>>, scripts: seq<ScriptFile>, s: ScriptFile)
    ensures s in Selected(configTags, scripts) <==>
            configTags.Some? && s in scripts && s.tags.Some? &&
            forall t :: t in s.tags.value ==> t in configTags.value
    ensures |Selected(configTags, scripts)| <= |scripts|
  {
    if configTags.Some? {
      FilterMembers(s => Selects(configTags.value, s), scripts, s);
    }
  }

  /** Selected scripts keep their parse order. */
  lemma SelectedInOrder(configTags: Option<seq<string>>, a: seq<ScriptFile>, b: seq<ScriptFile>)
    ensures Selected(configTags, a + b) == Selected(configTags, a) + Selected(configTags, b)
  {
    if configTags.Some? {
      FilterAppend(s => Selects(configTags.value, s), a, b);
    }
  }

  /** The rule the module documentation states: every config tag is among the script's tags. */
  predicate DocumentedSelects(configTags: seq<string>, s: ScriptFile) {
    s.tags.Some? && forall t :: t in configTags ==> t in s.tags.value
  }

  /** The two rules differ both ways: a script with fewer tags than the config is run but the
      documentation excludes it, and one with more is excluded but the documentation runs it. */
  lemma TagRulesDiffer()
    ensures var few := DefaultScript.(tags := Some(["core_approved"]));
            Selects(["core_approved", "example"], few) &&
            !DocumentedSelects(["core_approved", "example"], few)
    ensures var many := DefaultScript.(tags := Some(["core_approved", "example"]));
            !Selects(["core_approved"], many) && DocumentedSelects(["core_approved"], many)
  {
    assert "example" != "core_approved" by {
      assert "example"[0] != "core_approved"[0];
    }
    assert "example" in ["core_approved", "example"];
    assert "example" !in ["core_approved"];
  }

  /** Both rules select a script exactly when its tags and the config tags are the same set.
      They give the same answer exactly when the script is untagged or when "every script tag
      is a config tag" and "every config tag is a script tag" both hold or both fail, which
      includes the case where both reject because each side has a tag the other lacks. */
  lemma TagRulesAgree(configTags: seq<string>, s: ScriptFile)
    ensures Selects(configTags, s) && DocumentedSelects(configTags, s) <==>
            s.tags.Some? && forall t :: t in configTags <==> t in s.tags.value
    ensures (Selects(configTags, s) <==> DocumentedSelects(configTags, s)) <==>
            s.tags.None? ||
            ((forall t :: t in s.tags.value ==> t in configTags) <==>
             (forall t :: t in configTags ==> t in s.tags.value))
  {
  }

  datatype InitError =
    | ConfigUnreadable           // `ScriptConfig::read_config()?`
    | NoScriptsPath              // no `directory` in the config and no home directory
    | ScriptsFolderMissing(dir: string)  // `find_scripts` on a path that is not a directory

  /** The scripts directory: the configured one, else the home directory. */
  function ScriptsDir(env: ScriptEnv, config: ScriptConfig): Option<string> {
    if config.directory.Some? then config.directory else env.homeDir
  }

  /** What `init_scripts` returns in each mode. */
  function InitResult(mode: ScriptsRequired, env: ScriptEnv): Result<seq<ScriptFile>, InitError> {
    match mode
    case NoScripts => Success([])
    case Default => Success([DefaultScript])
    case Custom =>
      match env.config
      case None => Failure(ConfigUnreadable)
      case Some(config) =>
        match ScriptsDir(env, config)
        case None => Failure(NoScriptsPath)
        case Some(dir) =>
          if dir !in env.dirs then Failure(ScriptsFolderMissing(dir))
          else Success(Selected(config.tags, Parsed(env, env.dirs[dir])))
  }

  /** Mode `none` runs nothing and mode `default` runs exactly the embedded script; in custom
      mode every script run was read from the scripts directory and passes the tag rule. */
  lemma InitScriptsModes(env: ScriptEnv)
    ensures InitResult(NoScripts, env) == Success([])
    ensures InitResult(Default, env) == Success([DefaultScript])
    ensures InitResult(Custom, env).Success? ==>
              var config := env.config.value;
              config.tags.Some? || InitResult(Custom, env).value == []
    ensures InitResult(Custom, env).Success? ==>
              var config := env.config.value;
              var dir := ScriptsDir(env, config).value;
              forall s :: s in InitResult(Custom, env).value ==>
                Selects(config.tags.value, s) && s.path.Some? && s.path.value in env.dirs[dir]
  {
    if InitResult(Custom, env).Success? {
      var config := env.config.value;
      var dir := ScriptsDir(env, config).value;
      var parsed := Parsed(env, env.dirs[dir]);
      forall s | s in InitResult(Custom, env).value
        ensures Selects(config.tags.value, s) && s.path.Some? && s.path.value in env.dirs[dir]
      {
        SelectedExactly(config.tags, parsed, s);
        ParsedPaths(env, env.dirs[dir], s);
      }
    }
  }

  /** `init_scripts`. */
  method InitScripts(mode: ScriptsRequired, env: ScriptEnv) returns (r: Result<seq<ScriptFile>, InitError>)
    ensures r == InitResult(mode, env)
  {
    var toRun: seq<ScriptFile> := [];
    match mode {
      case NoScripts =>
      case Default =>
        toRun := toRun + [DefaultScript];
        assert toRun == [DefaultScript];
      case Custom =>
        if env.config.None? {
          return Failure(ConfigUnreadable);
        }
        var config := env.config.value;
        var dir;
        if config.directory.Some? {
          dir := config.directory.value;
        } else if env.homeDir.Some? {
          dir := env.homeDir.value;
        } else {
          return Failure(NoScriptsPath);
        }
        if dir !in env.dirs {
          return Failure(ScriptsFolderMissing(dir));
        }
        var parsed := ParseScripts(env, env.dirs[dir]);
        if config.tags.Some? {
          var ct := config.tags.value;
          for k := 0 to |parsed|
            invariant toRun == Selected(config.tags, parsed[..k])
          {
            assert parsed[..k + 1][..k] == parsed[..k];
            var script := parsed[k];
            if script.tags.Some? {
              if forall t :: t in script.tags.value ==> t in ct {
                toRun := toRun + [script];
              }
            }
          }
          assert parsed[..|parsed|] == parsed;
        }
    }
    return Success(toRun);
  }

  // ---------------------------------------------------------------------------------------
  // Script::run

  /** `Script`: a script file bound to a scanned address and its open ports. */
  datatype Script = Script(
    path: Option<string>,
    ip: Addr,
    openPorts: seq<Port>,
    triggerPort: Option<string>,
    portsSeparator: Option<string>,
    tags: Option<seq<string>>,
    callFormat: Option<string>)

  /** `ExecPartsScript` when `script` is present, `ExecParts` otherwise: the values the call
      format's placeholders are filled with. */
  datatype ExecParts = ExecParts(script: Option<string>, ip: Addr, port: string, ipversion: string)

  /** The template text and the values it is filled with before the command runs. */
  datatype Invocation = Invocation(format: string, parts: ExecParts)

  datatype RunError =
    | MissingCallFormat   // "Failed to parse execution format."
    | MissingScriptPath   // `self.path.unwrap()` on a script without a path

  /** The decimal rendering of each port, in order. */
  function Decimals(ports: seq<Port>): (r: seq<string>)
    ensures |r| == |ports|
    ensures forall i :: 0 <= i < |r| ==> r[i] == Decimal(ports[i] as int)
  {
    seq(|ports|, i requires 0 <= i < |ports| => Decimal(ports[i] as int))
  }

  /** The `{{port}}` value: the trigger port when there is one, else the open ports joined by
      the separator, `,` by default. */
  function PortsString(openPorts: seq<Port>, triggerPort: Option<string>, separator: Option<string>): string {
    if triggerPort.Some? then triggerPort.value else Join(Decimals(openPorts), separator.GetOr(","))
  }

  /** The open ports can be read back from the port string: split at a one-character
      separator that is not a digit, each piece is the decimal rendering of its port. */
  lemma PortsRoundTrip(ports: seq<Port>, sep: char)
    requires |ports| >= 1 && !IsDigit(sep)
    ensures |Split(PortsString(ports, None, Some([sep])), sep)| == |ports|
    ensures forall i :: 0 <= i < |ports| ==>
              var piece := Split(PortsString(ports, None, Some([sep])), sep)[i];
              (forall j :: 0 <= j < |piece| ==> IsDigit(piece[j])) && DecimalValue(piece) == ports[i] as int
  {
    var pieces := Decimals(ports);
    assert forall i :: 0 <= i < |pieces| ==> sep !in pieces[i];
    SplitJoin(pieces, sep);
    forall i | 0 <= i < |ports|
      ensures DecimalValue(pieces[i]) == ports[i] as int
    {
      DecimalRoundTrip(ports[i] as int);
    }
  }

  /** A trigger port replaces the port list entirely. */
  lemma TriggerPortOverrides(ports: seq<Port>, trigger: string, separator: Option<string>)
    ensures PortsString(ports, Some(trigger), separator) == trigger
  {
  }

  /** The ports 80 and 8080 with the default separator give `80,8080`. */
  lemma PortsExample()
    ensures PortsString([80, 8080], None, None) == "80,8080"
  {
    assert Decimal(8) == "8";
    assert Decimal(80) == "80";
    assert Decimal(808) == "808";
    assert Decimal(8080) == "8080";
    assert Decimals([80, 8080]) == ["80", "8080"];
  }

  /** The `{{ipversion}}` value. */
  function IpVersion(ip: Addr): (r: string)
    ensures r == "4" <==> ip.V4?
    ensures r == "6" <==> ip.V6?
  {
    match ip
    case V4(_) => "4"
    case V6(_) => "6"
  }

  /** The default script's format has no `{{script}}` placeholder, so it runs without a path. */
  lemma DefaultScriptNeedsNoPath()
    ensures !HasSubstring(DefaultScript.callFormat.value, "{{script}}")
  {
    var f := DefaultScript.callFormat.value;
    assert "{{script}}"[3] == 'c';
    assert 'c' !in f;
    NoSubstringWithout(f, "{{script}}", 3);
  }

  /** `Script::run` up to filling the template: the port string, the call format (an error
      when absent), and the parts the format is filled with. */
  method Run(s: Script) returns (r: Result<Invocation, RunError>)
    ensures r == Failure(MissingCallFormat) <==> s.callFormat.None?
    ensures r.Success? <==>
              s.callFormat.Some? && (s.path.Some? || !HasSubstring(s.callFormat.value, "{{script}}"))
    ensures r == Failure(MissingScriptPath) <==>
              s.callFormat.Some? && HasSubstring(s.callFormat.value, "{{script}}") && s.path.None?
    ensures r.Success? ==>
              && r.value.format == s.callFormat.value
              && r.value.parts.ip == s.ip
              && r.value.parts.port == PortsString(s.openPorts, s.triggerPort, s.portsSeparator)
              && r.value.parts.ipversion == IpVersion(s.ip)
              && (r.value.parts.script.Some? <==> HasSubstring(r.value.format, "{{script}}"))
              && (r.value.parts.script.Some? ==> r.value.parts.script == s.path)
  {
    var separator := s.portsSeparator.GetOr(",");
    var portsStr := Join(Decimals(s.openPorts), separator);
    if s.triggerPort.Some? {
      portsStr := s.triggerPort.value;
    }
    var finalCallFormat := "";
    if s.callFormat.Some? {
      finalCallFormat := s.callFormat.value;
    } else {
      return Failure(MissingCallFormat);
    }
    if HasSubstring(finalCallFormat, "{{script}}") {
      if s.path.None? {
        return Failure(MissingScriptPath);
      }
      r := Success(Invocation(finalCallFormat, ExecParts(s.path, s.ip, portsStr, IpVersion(s.ip))));
    } else {
      r := Success(Invocation(finalCallFormat, ExecParts(None, s.ip, portsStr, IpVersion(s.ip))));
    }
  }
}
