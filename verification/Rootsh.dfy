/** The option loop of `main` and `consume_remaining_args` (src/rootsh.c:340-388, 702-726). */
module RootshMain {
  import opened Options
  import opened CommandLine
  import opened Readings
  import opened Permutation
  import opened Scanning
  import opened GetoptClass
  import opened CommandOutcome

  lemma {:induction false} SettledAll(events: seq<Event>, k: nat)
    requires k == |events| && forall i :: 0 <= i < k ==> IsSetting(events[i].code)
    ensures Settled(events) == k
  {
    if k > 0 {
      SettledAll(events[1..], k - 1);
    }
  }

  /** The scan after `-c` has used up the vector: only the operands skipped before it are left. */
  lemma OnlySkippedLeft(s: Scan, p: Parsed, cfg: Config)
    requires s.Valid() && s.last <= s.optind && s.nextchar == ""
    requires s.Outlook(cfg.opts, cfg).operands == p.operands
    ensures var s' := s.(optind := |s.argv|);
            && s'.Valid()
            && s'.Outlook(cfg.opts, cfg).events == []
            && s'.Outlook(cfg.opts, cfg).operands == PassedBefore(p, s.argv[s.optind..], cfg)
  {
    var s' := s.(optind := |s.argv|);
    var q := Read(s.argv[s.optind..], cfg);
    assert s'.argv[s'.optind..] == [];
    assert p.operands == s.Skipped() + q.operands;
    assert s'.Skipped() == s.Skipped();
  }

  /** Before `-c`: `k` settings have been read, the rest is ahead. */
  ghost predicate Unread(args: seq<string>, p: Parsed, k: nat, s: Scan, cfg: Config) {
    && s.Valid() && s.ordering == cfg.ordering && |s.argv| == |args|
    && s.argv[s.optind..] == args[s.optind..]
    && k <= |p.events| && (forall i :: 0 <= i < k ==> IsSetting(p.events[i].code))
    && s.Outlook(cfg.opts, cfg).events == p.events[k..]
    && s.Outlook(cfg.opts, cfg).operands == p.operands
  }

  /** After `-c`: the command is taken, only skipped operands are ahead. */
  ghost predicate Appending(args: seq<string>, p: Parsed, k: nat, s: Scan, cfg: Config, shellCommands: Option<string>) {
    && s.Valid() && s.ordering == cfg.ordering && |s.argv| == |args|
    && s.Outlook(cfg.opts, cfg).events == []
    && k < |p.events| && p.events[k].code == 'c' as int && 0 <= p.events[k].left < |args|
    && (forall i :: 0 <= i < k ==> IsSetting(p.events[i].code))
    && var from := |args| - p.events[k].left;
    && s.Outlook(cfg.opts, cfg).operands == PassedBefore(p, args[from..], cfg)
    && shellCommands == Some(Joined(args[from - 1..]))
  }

  lemma FreshStart(args: seq<string>, cfg: Config)
    requires args != []
    ensures Unread(args, Read(args[1..], cfg), 0, Scan(args, 1, "", 1, 1, cfg.ordering), cfg)
  {
    FreshOutlook(args, cfg.opts, cfg);
  }

  lemma InUse(args: seq<string>, p: Parsed, k: nat, s: Scan, cfg: Config, given: bool, shellCommands: Option<string>)
    requires if given then Appending(args, p, k, s, cfg, shellCommands) else Unread(args, p, k, s, cfg)
    requires WellReported(p.events)
    ensures s.Valid() && s.ordering == cfg.ordering && |s.argv| == |args|
    ensures s.Outlook(cfg.opts, cfg).events != [] ==> !given && s.Outlook(cfg.opts, cfg).events[0].code != -1
  {
    hide Scan.Valid, Scan.Outlook, Parse;
  }

  /** What the caller sees of the part of the vector that an answer has just passed. */
  lemma StillInPlace(args: seq<string>, s: Scan, s': Scan, p: Parsed, cfg: Config)
    requires s.Valid() && |s.argv| == |args| && s.argv[s.optind..] == args[s.optind..]
    requires Answered(s, s', p, cfg)
    ensures 0 <= s'.Current() <= s'.optind <= |args| && s.optind <= s'.Current()
    ensures s'.argv[s'.optind..] == args[s'.optind..]
    ensures s'.argv[s'.Current()..] == args[s'.Current()..]
  {
    hide Parse, ParseElement, Scan.Outlook, Scan.Valid;
    InRangeAfter(s);
    InRangeAfter(s');
    ShorterSuffix(s.argv, args, s.optind, s'.Current());
    ShorterSuffix(s'.argv, args, s'.Current(), s'.optind);
  }

  lemma SettingRead(args: seq<string>, p: Parsed, k: nat, s: Scan, s': Scan, cfg: Config, start: Settings)
    requires Unread(args, p, k, s, cfg) && Answered(s, s', s.Outlook(cfg.opts, cfg), cfg)
    ensures k < |p.events| && s.Outlook(cfg.opts, cfg).events[0] == p.events[k] && s'.optind >= 1
    ensures var e := p.events[k];
            && ApplyAll(start, p.events[..k + 1]) == Apply(ApplyAll(start, p.events[..k]), e.code, e.optarg)
            && (IsSetting(e.code) ==> Unread(args, p, k + 1, s', cfg))
  {
    hide Parse, ParseElement, Scan.Outlook, Scan.Valid;
    var e := p.events[k];
    StillInPlace(args, s, s', s.Outlook(cfg.opts, cfg), cfg);
    InRangeAfter(s');
    assert p.events[..k] + [e] == p.events[..k + 1];
    ApplyAllAppend(start, p.events[..k], e);
    assert p.events[k..][1..] == p.events[k + 1..];
  }

  lemma ExitRead(args: seq<string>, p: Parsed, k: nat, s: Scan, cfg: Config, start: Settings)
    requires Unread(args, p, k, s, cfg) && k < |p.events|
    ensures var e := p.events[k];
            !IsSetting(e.code) && e.code != 'c' as int ==>
              OutcomeOf(args, p, start, cfg) == if e.code == 'V' as int then Version else Usage
  {
    hide Parse, ParseElement, Scan.Outlook, Scan.Valid, PassedBefore;
    if !IsSetting(p.events[k].code) {
      SettledIs(p.events, k);
    }
  }

  lemma CommandRead(args: seq<string>, p: Parsed, k: nat, s: Scan, s': Scan, cfg: Config)
    requires Unread(args, p, k, s, cfg) && Answered(s, s', s.Outlook(cfg.opts, cfg), cfg) && WellReported(p.events)
    requires k < |p.events| && p.events[k].code == 'c' as int
    ensures 1 <= s'.optind <= |args| && s'.argv[s'.optind - 1..] == args[s'.optind - 1..]
    ensures Appending(args, p, k, s'.(optind := |args|), cfg, Some(Joined(args[s'.optind - 1..])))
  {
    hide Parse, ParseElement, Scan.Outlook, Scan.Valid, PassedBefore;
    StillInPlace(args, s, s', s.Outlook(cfg.opts, cfg), cfg);
    InRangeAfter(s');
    OnlySkippedLeft(s', p, cfg);
    assert s'.Current() == s'.optind - 1;
  }

  /** At the end, what `consume_remaining_args` appends completes the outcome. */
  lemma EndReached(args: seq<string>, p: Parsed, k: nat, s: Scan, s': Scan, cfg: Config, given: bool,
                   shellCommands: Option<string>, start: Settings)
    requires if given then Appending(args, p, k, s, cfg, shellCommands)
             else Unread(args, p, k, s, cfg) && shellCommands == None
    requires Ended(s', s.Outlook(cfg.opts, cfg)) && |s'.argv| == |args|
    ensures s'.optind <= |args|
    ensures var more := s'.argv[s'.optind..];
            var all := if more == [] then shellCommands else Some(shellCommands.GetOr("") + Joined(more));
            OutcomeOf(args, p, start, cfg) == Runs(ApplyAll(start, p.events[..k]), all)
  {
    hide Parse, ParseElement, PassedBefore, Scan.Outlook;
    var more := s'.argv[s'.optind..];
    assert more == s.Outlook(cfg.opts, cfg).operands;
    if given {
      SettledIs(p.events, k);
      var command := args[|args| - p.events[k].left - 1..];
      JoinedAppend(command, more);
      assert command + [] == command;
    } else {
      SettledAll(p.events, k);
      assert p.events[..k] == p.events;
      assert "" + Joined(more) == Joined(more);
    }
  }

  lemma RootshOrdering(posixlyCorrect: bool)
    ensures OrderingOf(OPTSTRING, posixlyCorrect) == if posixlyCorrect then RequireOrder else Permute
    ensures Stripped(OPTSTRING) == OPTSTRING
  {
  }

  class Rootsh {
    var useLoginShell: bool
    var runAsUser: Option<string>
    var userLogFileName: Option<string>
    var userLogFileDir: Option<string>
    var logtofile: bool
    var logtosyslog: bool

    function Current(): Settings
      reads this
    {
      Settings(useLoginShell, runAsUser, userLogFileName, userLogFileDir, logtofile, logtosyslog)
    }

    /** `consume_remaining_args` */
    method ConsumeRemainingArgs(g: Getopt, argv: array<string>, shellCommands: Option<string>)
      returns (r: Option<string>)
      requires g.optind <= argv.Length
      modifies g`optind
      ensures g.optind == argv.Length
      ensures r == if old(g.optind) == argv.Length then shellCommands
                   else Some(shellCommands.GetOr("") + Joined(argv[old(g.optind)..]))
    {
      r := shellCommands;
      ghost var start := shellCommands.GetOr("");
      ghost var i := g.optind;
      while g.optind < argv.Length
        invariant i <= g.optind <= argv.Length
        invariant if g.optind == i then r == shellCommands else r == Some(start + Joined(argv[i..g.optind]))
      {
        assert r.GetOr("") == start + Joined(argv[i..g.optind]);
        if r == None {
          r := Some("");
        }
        r := Some(r.value + argv[g.optind] + " ");
        assert argv[i..g.optind + 1] == argv[i..g.optind] + [argv[g.optind]];
        JoinedNext(start, argv[i..g.optind], argv[g.optind]);
        g.optind := g.optind + 1;
      }
      assert argv[i..argv.Length] == argv[i..];
    }

    /** The cases of `main`'s switch that change a setting. */
    method ApplyOption(c: int, optarg: Option<string>)
      requires IsSetting(c)
      modifies this
      ensures Current() == Apply(old(Current()), c, optarg)
    {
      if c == 'i' as int {
        useLoginShell := true;
      } else if c == 'u' as int {
        runAsUser := optarg;
      } else if c == 'f' as int {
        userLogFileName := optarg;
      } else if c == 'd' as int {
        userLogFileDir := optarg;
      } else if c == 'x' as int {
        logtofile := false;
      } else {
        logtosyslog := false;
      }
    }

    /** The option loop of `main`, from a fresh scanner. */
    method ParseCommandLine(g: Getopt, argv: array<string>) returns (outcome: Outcome)
      requires argv.Length > 0 && g.optind == 1 && !g.initialized
      modifies this, g, argv
      ensures var cfg := ConfigFor(if g.posixlyCorrect then RequireOrder else Permute);
              var args := old(argv[..]);
              outcome == OutcomeOf(args, Read(args[1..], cfg), old(Current()), cfg)
    {
      hide Parse, ParseElement, Scan.Valid, Scan.Outlook, Settled, PassedBefore, Unread, Appending, OutcomeOf;
      hide Ended, Joined, Answered, OrderingOf, Stripped, Chosen;
      ghost var cfg := ConfigFor(if g.posixlyCorrect then RequireOrder else Permute);
      RootshOrdering(g.posixlyCorrect);
      ghost var args, start := argv[..], Current();
      ghost var p := Read(args[1..], cfg);
      FreshStart(args, cfg);
      AllReported(args[1..], cfg);
      ghost var k, given := 0, false;
      var shellCommands: Option<string> := None;
      while true
        invariant g.Visible(OPTSTRING) == OPTSTRING && argv.Length == |args|
        invariant k <= |p.events| && Current() == ApplyAll(start, p.events[..k])
        invariant if given then Appending(args, p, k, g.Start(argv, OPTSTRING), cfg, shellCommands)
                  else Unread(args, p, k, g.Start(argv, OPTSTRING), cfg) && shellCommands == None
        decreases |p.events| - k, !given
      {
        ghost var s := g.Start(argv, OPTSTRING);
        InUse(args, p, k, s, cfg, given, shellCommands);
        assert cfg == Config(s.ordering, OPTSTRING, Some(LONG_OPTIONS));
        var c := g.GetoptInternal(argv, OPTSTRING, Some(LONG_OPTIONS));
        if c == -1 {
          EndReached(args, p, k, s, g.View(argv), cfg, given, shellCommands, start);
          shellCommands := ConsumeRemainingArgs(g, argv, shellCommands);
          return Runs(Current(), shellCommands);
        }
        SettingRead(args, p, k, s, g.View(argv), cfg, start);
        ExitRead(args, p, k, s, cfg, start);
        if c == 'h' as int || c == '?' as int {
          return Usage;
        } else if c == 'V' as int {
          return Version;
        } else if IsSetting(c) {
          ApplyOption(c, g.optarg);
          k := k + 1;
        } else if c == 'c' as int {
          ghost var s' := g.View(argv);
          CommandRead(args, p, k, s, s', cfg);
          g.optind := g.optind - 1;
          shellCommands := ConsumeRemainingArgs(g, argv, shellCommands);
          given := true;
          assert "" + Joined(args[s'.optind - 1..]) == Joined(args[s'.optind - 1..]);
          assert g.View(argv) == s'.(optind := argv.Length);
        } else {
          return Usage;
        }
      }
    }
  }
}
