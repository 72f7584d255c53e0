/** What rootsh's command line asks for (src/rootsh.c:300-388, 702-726), read off the answers of `getopt`. */
module CommandOutcome {
  import opened Options
  import opened LongOptions
  import opened CommandLine
  import opened Strings
  import opened Readings
  import opened Replays
  import opened Spelling

  const OPTSTRING := "hViu:f:d:xyc:"

  const LONG_OPTIONS := [
    LongOption("help", 0, None, 'h' as int), LongOption("version", 0, None, 'V' as int),
    LongOption("user", 1, None, 'u' as int), LongOption("login", 0, None, 'i' as int),
    LongOption("logfile", 1, None, 'f' as int), LongOption("logdir", 1, None, 'd' as int),
    LongOption("no-logfile", 0, None, 'x' as int), LongOption("no-syslog", 0, None, 'y' as int)]

  datatype Settings = Settings(useLoginShell: bool, runAsUser: Option<string>, userLogFileName: Option<string>,
                               userLogFileDir: Option<string>, logtofile: bool, logtosyslog: bool)

  /** `usage` and `version` end the process; otherwise the shell is run. */
  datatype Outcome = Usage | Version | Runs(settings: Settings, shellCommands: Option<string>)

  function ConfigFor(ordering: Ordering): Config {
    Config(ordering, OPTSTRING, Some(LONG_OPTIONS))
  }

  /** The options that only change a setting. */
  predicate IsSetting(code: int) {
    code == 'i' as int || code == 'u' as int || code == 'f' as int || code == 'd' as int
    || code == 'x' as int || code == 'y' as int
  }

  function Apply(s: Settings, code: int, optarg: Option<string>): Settings {
    if code == 'i' as int then s.(useLoginShell := true)
    else if code == 'u' as int then s.(runAsUser := optarg)
    else if code == 'f' as int then s.(userLogFileName := optarg)
    else if code == 'd' as int then s.(userLogFileDir := optarg)
    else if code == 'x' as int then s.(logtofile := false)
    else if code == 'y' as int then s.(logtosyslog := false)
    else s
  }

  function ApplyAll(s: Settings, events: seq<Event>): Settings
    decreases |events|
  {
    if events == [] then s else ApplyAll(Apply(s, events[0].code, events[0].optarg), events[1..])
  }

  /** The number of settings in front of the first other option. */
  function Settled(events: seq<Event>): (k: nat)
    ensures k <= |events| && (k < |events| ==> !IsSetting(events[k].code))
    ensures forall i :: 0 <= i < k ==> IsSetting(events[i].code)
  {
    if events == [] || !IsSetting(events[0].code) then 0 else 1 + Settled(events[1..])
  }

  /** Every argument followed by a space. */
  function Joined(args: seq<string>): string {
    if args == [] then "" else args[0] + " " + Joined(args[1..])
  }

  function Commands(args: seq<string>): Option<string> {
    if args == [] then None else Some(Joined(args))
  }

  /** The operands of a reading `p` that lie in front of the part `rest` of the vector. */
  ghost function PassedBefore(p: Parsed, rest: seq<string>, cfg: Config): seq<string> {
    var later := |Read(rest, cfg).operands|;
    if later <= |p.operands| then p.operands[..|p.operands| - later] else []
  }

  /** What the command line `argv` with reading `p` leads to. At `-c`, the last element scanned and all that
      follows it become the command, and the operands skipped before are appended to it. */
  ghost function OutcomeOf(argv: seq<string>, p: Parsed, start: Settings, cfg: Config): Outcome {
    var k := Settled(p.events);
    var settings := ApplyAll(start, p.events[..k]);
    if k == |p.events| then Runs(settings, Commands(p.operands))
    else if p.events[k].code == 'c' as int && p.events[k].left < |argv| then
      var from := |argv| - p.events[k].left;
      Runs(settings, Commands(argv[from - 1..] + PassedBefore(p, argv[from..], cfg)))
    else if p.events[k].code == 'V' as int then Version
    else Usage
  }

  lemma {:induction false} JoinedAppend(a: seq<string>, b: seq<string>)
    ensures Joined(a + b) == Joined(a) + Joined(b)
  {
    if a == [] {
      assert a + b == b;
    } else {
      assert (a + b)[1..] == a[1..] + b;
      JoinedAppend(a[1..], b);
    }
  }

  lemma JoinedNext(start: string, args: seq<string>, arg: string)
    ensures start + Joined(args) + arg + " " == start + Joined(args + [arg])
  {
    JoinedAppend(args, [arg]);
    assert Joined([arg]) == arg + " ";
  }

  lemma {:induction false} ApplyAllAppend(s: Settings, events: seq<Event>, e: Event)
    ensures ApplyAll(s, events + [e]) == Apply(ApplyAll(s, events), e.code, e.optarg)
    decreases |events|
  {
    if events != [] {
      assert (events + [e])[1..] == events[1..] + [e];
      ApplyAllAppend(Apply(s, events[0].code, events[0].optarg), events[1..], e);
    } else {
      assert events + [e] == [e];
    }
  }

  /** The argument of the last answer of the given code. */
  function LastArgument(events: seq<Event>, code: int, default: Option<string>): Option<string>
    decreases |events|
  {
    if events == [] then default
    else LastArgument(events[1..], code, if events[0].code == code then events[0].optarg else default)
  }

  ghost predicate Given(events: seq<Event>, letter: char) {
    exists i :: 0 <= i < |events| && events[i].code == letter as int
  }

  /** Each setting is decided by its own option: the last argument given wins, a switch stays switched. */
  lemma {:induction false} SettingsDecided(s: Settings, events: seq<Event>)
    ensures var t := ApplyAll(s, events);
            && t.runAsUser == LastArgument(events, 'u' as int, s.runAsUser)
            && t.userLogFileName == LastArgument(events, 'f' as int, s.userLogFileName)
            && t.userLogFileDir == LastArgument(events, 'd' as int, s.userLogFileDir)
            && (t.useLoginShell <==> s.useLoginShell || Given(events, 'i'))
            && (t.logtofile <==> s.logtofile && !Given(events, 'x'))
            && (t.logtosyslog <==> s.logtosyslog && !Given(events, 'y'))
    decreases |events|
  {
    if events != [] {
      SettingsDecided(Apply(s, events[0].code, events[0].optarg), events[1..]);
      GivenFirst(events, 'i');
      GivenFirst(events, 'x');
      GivenFirst(events, 'y');
    }
  }

  lemma GivenFirst(events: seq<Event>, letter: char)
    requires events != []
    ensures Given(events, letter) <==> events[0].code == letter as int || Given(events[1..], letter)
  {
    if Given(events[1..], letter) {
      var i :| 0 <= i < |events[1..]| && events[1..][i].code == letter as int;
      assert events[i + 1].code == letter as int;
    }
    if Given(events, letter) && events[0].code != letter as int {
      var i :| 0 <= i < |events| && events[i].code == letter as int;
      assert events[1..][i - 1].code == letter as int;
    }
  }

  /** With rootsh's options, no answer is -1, `-c` always comes with its argument, and a missing
      argument is reported as `?`. */
  ghost predicate WellReported(events: seq<Event>) {
    forall i :: 0 <= i < |events| ==>
      && (events[i].code == 'c' as int ==> events[i].optarg.Some?)
      && events[i].code != -1
      && (events[i].missing ==> events[i].code == '?' as int)
  }

  lemma LongValues(i: nat)
    requires i < |LONG_OPTIONS|
    ensures LONG_OPTIONS[i].val !in {'c' as int, -1} && LONG_OPTIONS[i].flag == None
  {
  }

  lemma CDeclared()
    ensures IndexOf(OPTSTRING, 'c') == Some(11)
  {
    assert OPTSTRING[..11] == "hViu:f:d:xy";
    IndexIs(OPTSTRING, 'c', 11);
  }

  lemma DecodeReported(element: string, text: string, following: seq<string>)
    requires text != ""
    ensures WellReported([Decode(element, text, following, OPTSTRING, Some(LONG_OPTIONS)).event])
  {
    hide IndexOf, Resolve;
    CDeclared();
    if IsLong(element, Some(LONG_OPTIONS)) {
      var r := Resolve(LONG_OPTIONS, text[..NameEnd(text)]);
      if r.Exact? || r.Abbreviation? {
        LongValues(r.index);
      }
    }
  }

  lemma {:induction false} ElementReported(element: string, text: string, following: seq<string>, cfg: Config)
    requires text != "" && cfg == ConfigFor(cfg.ordering)
    ensures WellReported(ReadElement(element, text, following, cfg.opts, cfg).events)
    decreases |text|
  {
    hide DecodeShort, DecodeLong, Decode;
    var d := Decode(element, text, following, cfg.opts, cfg.table);
    DecodeReported(element, text, following);
    assert WellReported([d.event]);
    if d.rest != "" {
      ElementReported(element, d.rest, following, cfg);
      Both([d.event], ReadElement(element, d.rest, following, cfg.opts, cfg).events);
    }
  }

  lemma Both(a: seq<Event>, b: seq<Event>)
    requires WellReported(a) && WellReported(b)
    ensures WellReported(a + b)
  {
  }

  lemma {:induction false} AllReported(args: seq<string>, cfg: Config)
    requires cfg == ConfigFor(cfg.ordering)
    ensures WellReported(Read(args, cfg).events)
    decreases |args|
  {
    hide DecodeShort, DecodeLong, Decode, ReadElement;
    if args == [] || args[0] == TERMINATOR {
    } else if IsOperand(args[0]) {
      AllReported(args[1..], cfg);
      var e := Event(1, Some(args[0]), None, None, None, |args| - 1, false);
      Both([e], Read(args[1..], cfg).events);
    } else {
      var own := Front(args, cfg.opts, cfg);
      ParseFront(args, cfg.opts, cfg);
      ElementReported(args[0], OptionText(args[0], cfg.table), args[1..], cfg);
      AllReported(args[own.used..], cfg);
      Both(own.events, Read(args[own.used..], cfg).events);
    }
  }

  /** Settings in front of an option are read off the answers, whatever follows. */
  lemma {:induction false} SameSettings(s: Settings, a: seq<Event>, b: seq<Event>)
    requires |a| <= |b| && Answers(a) == Answers(b[..|a|]) && (forall i :: 0 <= i < |a| ==> IsSetting(a[i].code))
    ensures forall i :: 0 <= i < |a| ==> IsSetting(b[i].code)
    ensures ApplyAll(s, b[..|a|]) == ApplyAll(s, a)
    decreases |a|
  {
    if a != [] {
      var b0 := b[..|a|];
      assert a == [a[0]] + a[1..] && b0 == [b[0]] + b0[1..] && b0[1..] == b[1..][..|a| - 1];
      AnswersOfBoth([a[0]], a[1..]);
      AnswersOfBoth([b[0]], b0[1..]);
      assert Answers(a)[0] == Observable(a[0]) && Answers(b0)[0] == Observable(b[0]);
      assert Answers(a)[1..] == Answers(a[1..]) && Answers(b0)[1..] == Answers(b0[1..]);
      SameSettings(Apply(s, a[0].code, a[0].optarg), a[1..], b[1..]);
      assert forall i :: 1 <= i < |a| ==> b[i] == b[1..][i - 1];
    }
  }

  lemma SettledIs(events: seq<Event>, k: nat)
    requires k < |events| && !IsSetting(events[k].code) && forall i :: 0 <= i < k ==> IsSetting(events[i].code)
    ensures Settled(events) == k
  {
  }

  /** The switches that only change a setting. */
  ghost predicate AllSwitches(flags: string) {
    forall i :: 0 <= i < |flags| ==> flags[i] == 'i' || flags[i] == 'x' || flags[i] == 'y'
  }

  lemma SwitchesPlain(flags: string)
    requires AllSwitches(flags)
    ensures AllPlain(flags, OPTSTRING) && forall e :: e in Letters(flags) ==> IsSetting(e.code)
  {
    hide IndexOf;
    assert OPTSTRING[..2] == "hV" && OPTSTRING[..9] == "hViu:f:d:" && OPTSTRING[..10] == "hViu:f:d:x";
    IndexIs(OPTSTRING, 'i', 2);
    IndexIs(OPTSTRING, 'x', 9);
    IndexIs(OPTSTRING, 'y', 10);
  }

  /** `-c` with its argument `x` behind it or attached to it, after the switches `flags` in the same element. */
  function CommandOption(flags: string, x: string, attached: bool): Intent {
    Short(flags, 'c', Some(x), attached)
  }

  lemma CommandOptionWellFormed(flags: string, x: string, attached: bool, cfg: Config)
    requires cfg == ConfigFor(cfg.ordering) && AllSwitches(flags) && (attached ==> x != "")
    ensures WellFormed(CommandOption(flags, x, attached), cfg)
  {
    hide IndexOf;
    SwitchesPlain(flags);
    CDeclared();
    assert CharAt(OPTSTRING, 12) == ':' && CharAt(OPTSTRING, 13) == '\0';
    assert KindOf('c', OPTSTRING) == Required;
  }

  /** The last answer of an element comes when the element and the arguments it used have been scanned. */
  lemma {:induction false} LastLeft(element: string, text: string, following: seq<string>, opts: string, cfg: Config)
    requires text != ""
    ensures var r := ReadElement(element, text, following, opts, cfg);
            r.events[|r.events| - 1].left == |following| - r.used
    decreases |text|
  {
    hide Decode;
    var d := Decode(element, text, following, opts, cfg.table);
    if d.rest != "" {
      LastLeft(element, d.rest, following, cfg.opts, cfg);
    }
  }

  lemma CommandOptionRead(flags: string, x: string, attached: bool, post: seq<string>, cfg: Config)
    requires cfg == ConfigFor(cfg.ordering) && AllSwitches(flags) && (attached ==> x != "")
    ensures var own := Spelled(CommandOption(flags, x, attached));
            var t := Read(own + post, cfg);
            && |t.events| > |flags| && Answers(t.events[..|flags|]) == Letters(flags)
            && t.events[|flags|].code == 'c' as int && t.events[|flags|].left == |post|
            && t.operands == Read(post, cfg).operands
  {
    hide DecodeShort, DecodeLong, Decode, ReadElement, Parse, WellFormed, Spelled, IsOperand;
    var m := CommandOption(flags, x, attached);
    var args := Spelled(m) + post;
    CommandOptionWellFormed(flags, x, attached, cfg);
    ShortRead(m, post, cfg);
    ParseFront(args, cfg.opts, cfg);
    var r := Front(args, cfg.opts, cfg);
    LastLeft(args[0], OptionText(args[0], cfg.table), args[1..], cfg.opts, cfg);
    assert args[r.used..] == post;
    assert |Answers(r.events)| == |r.events| == |flags| + 1;
    assert Answers(r.events)[|flags|] == Observable(r.events[|flags|]);
    assert (r.events + Read(post, cfg).events)[..|flags|] == r.events[..|flags|];
    assert Answers(r.events[..|flags|]) == Answers(r.events)[..|flags|] == Letters(flags);
  }

  lemma LettersObservable(flags: string)
    ensures Answers(Letters(flags)) == Letters(flags) && |Letters(flags)| == |flags|
  {
  }

  /** The settings of a command line that goes on, behind `pre`, with switches grouped in front of another option. */
  lemma SettledInFront(p: seq<Event>, q: seq<Event>, t: seq<Event>, flags: string, start: Settings)
    requires AllSwitches(flags) && (forall i :: 0 <= i < |p| ==> IsSetting(p[i].code))
    requires Answers(q) == Answers(p) + Answers(t)
    requires |t| > |flags| && Answers(t[..|flags|]) == Letters(flags) && !IsSetting(t[|flags|].code)
    ensures Settled(q) == |p| + |flags| < |q| && q[|p| + |flags|].code == t[|flags|].code
    ensures ApplyAll(start, q[..|p| + |flags|]) == ApplyAll(start, p + Letters(flags))
  {
    hide Letters;
    var k := |p| + |flags|;
    AnswersLength(p);
    AnswersLength(q);
    AnswersLength(t);
    LettersObservable(flags);
    SwitchesPlain(flags);
    AnswersOfBoth(p, Letters(flags));
    assert t == t[..|flags|] + t[|flags|..];
    AnswersOfBoth(t[..|flags|], t[|flags|..]);
    assert q == q[..k] + q[k..];
    AnswersOfBoth(q[..k], q[k..]);
    AnswersLength(q[..k]);
    assert Answers(q[..k]) == Answers(q)[..k] == Answers(p + Letters(flags));
    SameSettings(start, p + Letters(flags), q);
    assert Answers(q)[k] == Observable(q[k]) && Answers(q)[k] == Answers(t)[|flags|] == Observable(t[|flags|]);
    SettledIs(q, k);
  }

  /** What `-c` in the middle of a command line leads to. */
  lemma CommandTaken(name: string, pre: seq<string>, flags: string, x: string, attached: bool, post: seq<string>,
                     start: Settings, cfg: Config)
    requires cfg == ConfigFor(cfg.ordering) && AllSwitches(flags) && (attached ==> x != "")
    requires cfg.ordering == Permute || (cfg.ordering == RequireOrder && Read(pre, cfg).operands == [])
    requires var p := Read(pre, cfg); !p.terminated && Settled(p.events) == |p.events|
    ensures var argv := [name] + pre + Spelled(CommandOption(flags, x, attached)) + post;
            var p := Read(pre, cfg);
            OutcomeOf(argv, Read(argv[1..], cfg), start, cfg)
            == Runs(ApplyAll(start, p.events + Letters(flags)),
                    Some(Joined([if attached then "-" + flags + "c" + x else x] + post + p.operands)))
  {
    hide DecodeShort, DecodeLong, Decode, ReadElement, Parse, Front, Answers, Letters, Settled;
    var own := Spelled(CommandOption(flags, x, attached));
    var tail := own + post;
    var argv := [name] + pre + own + post;
    var p, t, q := Read(pre, cfg), Read(tail, cfg), Read(pre + tail, cfg);
    assert argv[1..] == pre + tail;
    AllReported(pre, cfg);
    SettingsNotStarved(p.events);
    ReadAppend(pre, tail, cfg.opts, cfg);
    CommandOptionRead(flags, x, attached, post, cfg);
    SettledInFront(p.events, q.events, t.events, flags, start);
    var k := |p.events| + |flags|;
    assert q.events[k] == q.events[|p.events|..][|flags|] == t.events[|flags|];
    var from := |argv| - |post|;
    assert argv[from..] == post;
    assert argv[from - 1..] == [own[|own| - 1]] + post;
    assert PassedBefore(q, post, cfg) == p.operands;
  }

  lemma FirstJoined(a: string, b: string, rest: seq<string>)
    requires |a| != |b|
    ensures Joined([a] + rest) != Joined([b] + rest)
  {
    assert ([a] + rest)[1..] == rest && ([b] + rest)[1..] == rest;
    assert |Joined([a] + rest)| == |a| + 1 + |Joined(rest)| && |Joined([b] + rest)| == |b| + 1 + |Joined(rest)|;
  }

  /** `-c x` in the middle of a command line: everything behind it is passed on verbatim, nothing of it is
      read as an option, and the operands in front of it come last. What stands in front of all that is the element
      that `x` is in: `x` itself exactly when it is not attached. */
  lemma CommandGiven(name: string, pre: seq<string>, flags: string, x: string, attached: bool, post: seq<string>,
                     start: Settings, cfg: Config)
    requires cfg == ConfigFor(cfg.ordering) && AllSwitches(flags) && (attached ==> x != "")
    requires cfg.ordering == Permute || (cfg.ordering == RequireOrder && Read(pre, cfg).operands == [])
    requires var p := Read(pre, cfg); !p.terminated && Settled(p.events) == |p.events|
    ensures var argv := [name] + pre + Spelled(CommandOption(flags, x, attached)) + post;
            var p := Read(pre, cfg);
            OutcomeOf(argv, Read(argv[1..], cfg), start, cfg)
            == Runs(ApplyAll(start, p.events + Letters(flags)),
                    Some(Joined([if attached then "-" + flags + "c" + x else x] + post + p.operands)))
    ensures var argv := [name] + pre + Spelled(CommandOption(flags, x, attached)) + post;
            var p := Read(pre, cfg);
            OutcomeOf(argv, Read(argv[1..], cfg), start, cfg)
            == Runs(ApplyAll(start, p.events + Letters(flags)), Some(Joined([x] + post + p.operands)))
            <==> !attached
  {
    hide Parse, OutcomeOf, Joined, Settled, Letters, ApplyAll, Spelled;
    CommandTaken(name, pre, flags, x, attached, post, start, cfg);
    var p := Read(pre, cfg);
    var element := "-" + flags + "c" + x;
    FirstJoined(element, x, post + p.operands);
    assert [x] + post + p.operands == [x] + (post + p.operands);
    assert [element] + post + p.operands == [element] + (post + p.operands);
  }

  lemma CommandAlone(x: string, attached: bool, start: Settings, cfg: Config)
    requires cfg == ConfigFor(cfg.ordering) && cfg.ordering != ReturnInOrder && (attached ==> x != "")
    ensures var args := if attached then ["-c" + x] else ["-c", x];
            OutcomeOf(["rootsh"] + args, Read(args, cfg), start, cfg)
            == Runs(start, Some((if attached then "-c" + x else x) + " "))
  {
    hide Parse, OutcomeOf, Joined;
    var args := if attached then ["-c" + x] else ["-c", x];
    ParseAtEnd([], cfg.opts, cfg);
    LettersEmpty();
    CommandTaken("rootsh", [], "", x, attached, [], start, cfg);
    assert "-" + "" + ['c'] + x == "-c" + x && "-" + "" + "c" + x == "-c" + x && "-" + "" + ['c'] == "-c";
    assert Spelled(CommandOption("", x, attached)) == args;
    assert ["rootsh"] + [] + args + [] == ["rootsh"] + args && (["rootsh"] + args)[1..] == args;
    var none: seq<Event> := [];
    assert none + Letters("") == none;
    JoinedOne(if attached then "-c" + x else x);
  }

  lemma JoinedOne(arg: string)
    ensures Joined([arg] + [] + []) == arg + " "
  {
    assert [arg] + [] + [] == [arg] && [arg][1..] == [];
    assert arg + " " + "" == arg + " ";
  }

  /** `rootsh -cls` runs the command `-cls`, `rootsh -c ls` the command `ls`. */
  lemma AttachedCommand(start: Settings, cfg: Config)
    requires cfg == ConfigFor(cfg.ordering) && cfg.ordering != ReturnInOrder
    ensures OutcomeOf(["rootsh", "-cls"], Read(["-cls"], cfg), start, cfg) == Runs(start, Some("-cls "))
    ensures OutcomeOf(["rootsh", "-c", "ls"], Read(["-c", "ls"], cfg), start, cfg) == Runs(start, Some("ls "))
  {
    hide Parse, OutcomeOf;
    CommandAlone("ls", true, start, cfg);
    CommandAlone("ls", false, start, cfg);
    assert "-c" + "ls" == "-cls" && "-cls" + " " == "-cls " && "ls" + " " == "ls ";
    assert ["rootsh"] + ["-cls"] == ["rootsh", "-cls"] && ["rootsh"] + ["-c", "ls"] == ["rootsh", "-c", "ls"];
  }

  /** A missing argument is no setting. */
  lemma SettingsNotStarved(events: seq<Event>)
    requires WellReported(events) && Settled(events) == |events|
    ensures !Starved(events) && forall i :: 0 <= i < |events| ==> IsSetting(events[i].code)
  {
  }

  /** Without `-c`, settings and operands may be mixed in any order and any spelling, and end in `--`: the settings
      all apply, and the operands, in their order, are the command. */
  lemma NoCommandGiven(name: string, ms: seq<Intent>, end: Option<seq<string>>, start: Settings, cfg: Config)
    requires cfg == ConfigFor(cfg.ordering) && AllWellFormed(ms, cfg)
    requires forall e :: e in Intended(ms, end, cfg).events ==> IsSetting(e.code)
    ensures var argv := [name] + Written(ms, end);
            var p := Intended(ms, end, cfg);
            OutcomeOf(argv, Read(argv[1..], cfg), start, cfg) == Runs(ApplyAll(start, p.events), Commands(p.operands))
  {
    hide Parse;
    var argv := [name] + Written(ms, end);
    var p, q := Intended(ms, end, cfg), Read(Written(ms, end), cfg);
    assert argv[1..] == Written(ms, end);
    ReadingRecoversMeaning(ms, end, cfg);
    assert Answers(p.events) == p.events by { IntendedObservable(ms, end, cfg); }
    assert q.events[..|q.events|] == q.events && |Answers(q.events)| == |q.events|;
    SameSettings(start, p.events, q.events);
  }
}
