/** rootsh's options by the names and letters of its documentation (src/rootsh.c:300-385): whatever a user asks for,
    typed in any of the documented forms, is what is set. */
module DocumentedOptions {
  import opened Options
  import opened LongOptions
  import opened CommandLine
  import opened Strings
  import opened Readings
  import opened Replays
  import opened Spelling
  import opened CommandOutcome

  /** What an option asks for; a `Word` is a word of the command. */
  datatype Wish =
    | Login
    | User(who: string)
    | LogFile(file: string)
    | LogDir(dir: string)
    | NoLogFile
    | NoSyslog
    | Word(text: string)

  datatype Form = ShortForm | ShortAttached | LongForm | LongAttached

  datatype Request = Request(wish: Wish, form: Form)

  function Switch(letter: string, name: string, form: Form): seq<string> {
    if form.ShortForm? || form.ShortAttached? then [letter] else [name]
  }

  function WithArgument(letter: string, name: string, x: string, form: Form): seq<string> {
    match form
    case ShortForm => [letter, x]
    case ShortAttached => [letter + x]
    case LongForm => [name, x]
    case LongAttached => [name + "=" + x]
  }

  /** What is typed. */
  function Typed(r: Request): seq<string> {
    match r.wish
    case Login => Switch("-i", "--login", r.form)
    case User(who) => WithArgument("-u", "--user", who, r.form)
    case LogFile(file) => WithArgument("-f", "--logfile", file, r.form)
    case LogDir(dir) => WithArgument("-d", "--logdir", dir, r.form)
    case NoLogFile => Switch("-x", "--no-logfile", r.form)
    case NoSyslog => Switch("-y", "--no-syslog", r.form)
    case Word(text) => [text]
  }

  /** An argument attached to a letter is not empty, and a word does not look like an option. */
  predicate Typable(r: Request) {
    match r.wish
    case User(x) => r.form.ShortAttached? ==> x != ""
    case LogFile(x) => r.form.ShortAttached? ==> x != ""
    case LogDir(x) => r.form.ShortAttached? ==> x != ""
    case Word(text) => text == "" || text[0] != '-' || text == "-"
    case _ => true
  }

  /** What a wish sets. */
  function Fulfil(s: Settings, w: Wish): Settings {
    match w
    case Login => s.(useLoginShell := true)
    case User(who) => s.(runAsUser := Some(who))
    case LogFile(file) => s.(userLogFileName := Some(file))
    case LogDir(dir) => s.(userLogFileDir := Some(dir))
    case NoLogFile => s.(logtofile := false)
    case NoSyslog => s.(logtosyslog := false)
    case Word(_) => s
  }

  ghost predicate AllTypable(rs: seq<Request>) {
    forall i :: 0 <= i < |rs| ==> Typable(rs[i])
  }

  function TypedAll(rs: seq<Request>): seq<string> {
    if rs == [] then [] else Typed(rs[0]) + TypedAll(rs[1..])
  }

  /** The settings asked for; with POSIXLY_CORRECT only in front of the first word. */
  function Fulfilled(s: Settings, rs: seq<Request>, posixlyCorrect: bool): Settings
    decreases |rs|
  {
    if rs == [] || (posixlyCorrect && rs[0].wish.Word?) then s
    else Fulfilled(Fulfil(s, rs[0].wish), rs[1..], posixlyCorrect)
  }

  /** The words of the command; with POSIXLY_CORRECT everything from the first word on. */
  function Words(rs: seq<Request>, end: Option<seq<string>>, posixlyCorrect: bool): seq<string> {
    if rs == [] then end.GetOr([])
    else if !rs[0].wish.Word? then Words(rs[1..], end, posixlyCorrect)
    else if posixlyCorrect then TypedAll(rs) + Ending(end)
    else [rs[0].wish.text] + Words(rs[1..], end, posixlyCorrect)
  }

  function Ending(end: Option<seq<string>>): seq<string> {
    if end.Some? then ["--"] + end.value else []
  }

  function ByLetter(letter: char, arg: Option<string>, form: Form): Intent {
    Short("", letter, arg, form.ShortAttached?)
  }

  function ByName(index: nat, name: string, arg: Option<string>, form: Form): Intent {
    Long(index, name, arg, form.LongAttached?)
  }

  function Either(letter: char, index: nat, name: string, arg: Option<string>, form: Form): Intent {
    if form.ShortForm? || form.ShortAttached? then ByLetter(letter, arg, form) else ByName(index, name, arg, form)
  }

  function AsIntent(r: Request): Intent {
    match r.wish
    case Login => Either('i', 3, "login", None, r.form)
    case User(who) => Either('u', 2, "user", Some(who), r.form)
    case LogFile(file) => Either('f', 4, "logfile", Some(file), r.form)
    case LogDir(dir) => Either('d', 5, "logdir", Some(dir), r.form)
    case NoLogFile => Either('x', 6, "no-logfile", None, r.form)
    case NoSyslog => Either('y', 7, "no-syslog", None, r.form)
    case Word(text) => Operand(text)
  }

  lemma SwitchesDeclared()
    ensures KindOf('h', OPTSTRING) == Plain && KindOf('V', OPTSTRING) == Plain
    ensures KindOf('i', OPTSTRING) == Plain && KindOf('x', OPTSTRING) == Plain && KindOf('y', OPTSTRING) == Plain
  {
    hide KindOf;
    DeclaredBy("", 'h', "Viu:f:d:xyc:");
    assert "" + ['h'] + "Viu:f:d:xyc:" == OPTSTRING;
    DeclaredBy("h", 'V', "iu:f:d:xyc:");
    assert "h" + ['V'] + "iu:f:d:xyc:" == OPTSTRING;
    DeclaredBy("hV", 'i', "u:f:d:xyc:");
    assert "hV" + ['i'] + "u:f:d:xyc:" == OPTSTRING;
    DeclaredBy("hViu:f:d:", 'x', "yc:");
    assert "hViu:f:d:" + ['x'] + "yc:" == OPTSTRING;
    DeclaredBy("hViu:f:d:x", 'y', "c:");
    assert "hViu:f:d:x" + ['y'] + "c:" == OPTSTRING;
  }

  lemma ArgumentsDeclared()
    ensures KindOf('u', OPTSTRING) == Required && KindOf('f', OPTSTRING) == Required
    ensures KindOf('d', OPTSTRING) == Required && KindOf('c', OPTSTRING) == Required
  {
    hide KindOf;
    DeclaredBy("hVi", 'u', ":f:d:xyc:");
    assert "hVi" + ['u'] + ":f:d:xyc:" == OPTSTRING;
    DeclaredBy("hViu:", 'f', ":d:xyc:");
    assert "hViu:" + ['f'] + ":d:xyc:" == OPTSTRING;
    DeclaredBy("hViu:f:", 'd', ":xyc:");
    assert "hViu:f:" + ['d'] + ":xyc:" == OPTSTRING;
    DeclaredBy("hViu:f:d:xy", 'c', ":");
    assert "hViu:f:d:xy" + ['c'] + ":" == OPTSTRING;
  }

  lemma Named(index: nat, name: string)
    requires index < |LONG_OPTIONS| && LONG_OPTIONS[index].name == name
    ensures Resolves(LONG_OPTIONS, name, Exact(index)) && '=' !in name && name != ""
  {
  }

  /** A request as a piece of a command line. */
  ghost predicate Fits(r: Request, s: Settings, cfg: Config) {
    var m := AsIntent(r);
    && WellFormed(m, cfg) && Spelled(m) == Typed(r) && (m.Operand? <==> r.wish.Word?)
    && (!m.Operand? ==>
          && ApplyAll(s, Meant(m, cfg)) == Fulfil(s, r.wish)
          && forall e :: e in Meant(m, cfg) ==> IsSetting(e.code))
  }

  lemma OneLetterMeant(letter: char, arg: Option<string>, attached: bool, cfg: Config)
    requires Accepts(KindOf(letter, cfg.opts), arg, attached) && letter != '-' && letter != '\0'
    ensures var m := Short("", letter, arg, attached);
            && WellFormed(m, cfg) && Meant(m, cfg) == [Letter(letter, arg)]
            && Spelled(m) == if arg.None? then [['-', letter]]
                             else if attached then [['-', letter] + arg.value] else [['-', letter], arg.value]
  {
    hide KindOf, Accepts;
    LettersEmpty();
    assert "" + [letter] == [letter] && "-" + "" + [letter] == ['-', letter];
    assert [] + [Letter(letter, arg)] == [Letter(letter, arg)];
  }

  lemma OneNameMeant(index: nat, name: string, arg: Option<string>, attached: bool, cfg: Config)
    requires cfg == ConfigFor(cfg.ordering)
    requires index < |LONG_OPTIONS| && LONG_OPTIONS[index].name == name
    requires if arg.None? then LONG_OPTIONS[index].hasArg == 0 else LONG_OPTIONS[index].hasArg == 1
    ensures var m := Long(index, name, arg, attached);
            && WellFormed(m, cfg)
            && Meant(m, cfg) == [Event(LONG_OPTIONS[index].val, arg, Some(index), None, None, 0, false)]
            && Spelled(m) == if arg.None? then ["--" + name]
                             else if attached then ["--" + name + "=" + arg.value] else ["--" + name, arg.value]
  {
    hide Resolves;
    Named(index, name);
    LongValues(index);
  }

  lemma OneApplied(s: Settings, e: Event)
    ensures ApplyAll(s, [e]) == Apply(s, e.code, e.optarg)
  {
    assert [e][1..] == [];
  }

  lemma LetterFits(r: Request, s: Settings, cfg: Config)
    requires cfg == ConfigFor(cfg.ordering) && Typable(r) && !r.wish.Word?
    requires r.form.ShortForm? || r.form.ShortAttached?
    ensures Fits(r, s, cfg)
  {
    hide KindOf, Meant, WellFormed, Spelled, ApplyAll;
    SwitchesDeclared();
    ArgumentsDeclared();
    var m := AsIntent(r);
    OneLetterMeant(m.letter, m.arg, m.attached, cfg);
    OneApplied(s, Letter(m.letter, m.arg));
  }

  lemma NamesDashed()
    ensures "--" + "login" == "--login" && "--" + "user" == "--user" && "--" + "logfile" == "--logfile"
    ensures "--" + "logdir" == "--logdir"
    ensures "--" + "no-logfile" == "--no-logfile" && "--" + "no-syslog" == "--no-syslog"
  {
  }

  lemma NameFits(r: Request, s: Settings, cfg: Config)
    requires cfg == ConfigFor(cfg.ordering) && Typable(r) && !r.wish.Word?
    requires r.form.LongForm? || r.form.LongAttached?
    ensures Fits(r, s, cfg)
  {
    hide Meant, WellFormed, Spelled, ApplyAll;
    var m := AsIntent(r);
    OneNameMeant(m.index, m.typed, m.arg, m.attached, cfg);
    NamesDashed();
    OneApplied(s, Event(LONG_OPTIONS[m.index].val, m.arg, Some(m.index), None, None, 0, false));
  }

  lemma AllFit(r: Request, s: Settings, cfg: Config)
    requires cfg == ConfigFor(cfg.ordering) && Typable(r)
    ensures Fits(r, s, cfg)
  {
    hide Fits;
    if r.wish.Word? {
      assert Fits(r, s, cfg) by { WordFits(r, s, cfg); }
    } else if r.form.ShortForm? || r.form.ShortAttached? {
      LetterFits(r, s, cfg);
    } else {
      NameFits(r, s, cfg);
    }
  }

  lemma WordFits(r: Request, s: Settings, cfg: Config)
    requires Typable(r) && r.wish.Word?
    ensures Fits(r, s, cfg)
  {
  }

  function AsIntents(rs: seq<Request>): seq<Intent> {
    if rs == [] then [] else [AsIntent(rs[0])] + AsIntents(rs[1..])
  }

  lemma {:induction false} AsWritten(rs: seq<Request>, end: Option<seq<string>>, cfg: Config)
    requires cfg == ConfigFor(cfg.ordering) && AllTypable(rs)
    ensures AllWellFormed(AsIntents(rs), cfg)
    ensures Written(AsIntents(rs), end) == TypedAll(rs) + Ending(end)
  {
    hide Typable, AsIntent, WellFormed, Spelled, Typed;
    if rs == [] {
      assert TypedAll(rs) + Ending(end) == Ending(end);
    } else {
      var s := Settings(false, None, None, None, true, true);
      AllFit(rs[0], s, cfg);
      AsWritten(rs[1..], end, cfg);
      var m, ms := AsIntent(rs[0]), AsIntents(rs[1..]);
      assert ([m] + ms)[1..] == ms;
      assert Typed(rs[0]) + (TypedAll(rs[1..]) + Ending(end)) == Typed(rs[0]) + TypedAll(rs[1..]) + Ending(end);
    }
  }

  /** What the requests make of a reading. */
  ghost predicate Granted(rs: seq<Request>, end: Option<seq<string>>, s: Settings, cfg: Config)
    requires AllWellFormed(AsIntents(rs), cfg)
  {
    var p := Intended(AsIntents(rs), end, cfg);
    && ApplyAll(s, p.events) == Fulfilled(s, rs, cfg.ordering == RequireOrder)
    && p.operands == Words(rs, end, cfg.ordering == RequireOrder) && (end.None? ==> !p.terminated)
    && forall e :: e in p.events ==> IsSetting(e.code)
  }

  lemma {:induction false} AllGranted(rs: seq<Request>, end: Option<seq<string>>, s: Settings, cfg: Config)
    requires cfg == ConfigFor(cfg.ordering) && cfg.ordering != ReturnInOrder && AllTypable(rs)
    ensures AllWellFormed(AsIntents(rs), cfg) && Granted(rs, end, s, cfg)
    decreases |rs|
  {
    hide Typable, AsIntent, Resolves, KindOf, Spelled, Typed, Meant, Apply, IsSetting, Fulfil;
    AsWritten(rs, end, cfg);
    if rs != [] {
      AllFit(rs[0], s, cfg);
      var m, ms := AsIntent(rs[0]), AsIntents(rs[1..]);
      assert ([m] + ms)[1..] == ms;
      if !rs[0].wish.Word? {
        AllGranted(rs[1..], end, Fulfil(s, rs[0].wish), cfg);
        ApplyBoth(s, Meant(m, cfg), Intended(ms, end, cfg).events);
      } else {
        WordIs(rs[0], s);
        AllGranted(rs[1..], end, s, cfg);
      }
    }
  }

  lemma WordIs(r: Request, s: Settings)
    requires r.wish.Word?
    ensures Fulfil(s, r.wish) == s && Spelled(AsIntent(r)) == [r.wish.text] && AsIntent(r).Operand?
  {
  }

  lemma {:induction false} ApplyBoth(s: Settings, a: seq<Event>, b: seq<Event>)
    ensures ApplyAll(s, a + b) == ApplyAll(ApplyAll(s, a), b)
    decreases |a|
  {
    if a == [] {
      assert a + b == b;
    } else {
      assert (a + b)[1..] == a[1..] + b;
      ApplyBoth(Apply(s, a[0].code, a[0].optarg), a[1..], b);
    }
  }

  /** Whatever settings are asked for in whatever documented forms, they are made, and the words are the command. */
  lemma RequestsFulfilled(name: string, rs: seq<Request>, end: Option<seq<string>>, start: Settings,
                          posixlyCorrect: bool)
    requires AllTypable(rs)
    ensures var cfg := ConfigFor(if posixlyCorrect then RequireOrder else Permute);
            var args := TypedAll(rs) + if end.Some? then ["--"] + end.value else [];
            OutcomeOf([name] + args, Read(args, cfg), start, cfg)
            == Runs(Fulfilled(start, rs, posixlyCorrect), Commands(Words(rs, end, posixlyCorrect)))
  {
    hide Parse, Intended, Written, Fulfilled, Words, OutcomeOf, AllTypable;
    var cfg := ConfigFor(if posixlyCorrect then RequireOrder else Permute);
    AsWritten(rs, end, cfg);
    AllGranted(rs, end, start, cfg);
    NoCommandGiven(name, AsIntents(rs), end, start, cfg);
    var args := TypedAll(rs) + Ending(end);
    assert ([name] + args)[1..] == args;
  }

  /** No word stands in front, where POSIXLY_CORRECT would end the options. */
  ghost predicate StillOptions(rs: seq<Request>, posixlyCorrect: bool) {
    posixlyCorrect ==> forall i :: 0 <= i < |rs| ==> !rs[i].wish.Word?
  }

  lemma {:induction false} NoWords(rs: seq<Request>)
    requires forall i :: 0 <= i < |rs| ==> !rs[i].wish.Word?
    ensures Words(rs, None, true) == []
  {
    if rs != [] {
      NoWords(rs[1..]);
    }
  }

  lemma SettingCodes(p: seq<Event>, meant: seq<Event>)
    requires Answers(p) == meant && forall e :: e in meant ==> IsSetting(e.code)
    ensures forall i :: 0 <= i < |p| ==> IsSetting(p[i].code)
  {
    hide IsSetting;
    AnswersLength(p);
    forall i | 0 <= i < |p|
      ensures IsSetting(p[i].code)
    {
      assert meant[i] == Observable(p[i]) && meant[i] in meant;
    }
  }

  /** The requests in front of anything else have been read as settings. */
  lemma FrontSettled(rs: seq<Request>, cfg: Config)
    requires cfg == ConfigFor(cfg.ordering) && cfg.ordering != ReturnInOrder && AllTypable(rs)
    requires StillOptions(rs, cfg.ordering == RequireOrder)
    ensures var p := Read(TypedAll(rs), cfg);
            && !Starved(p.events) && !p.terminated && (cfg.ordering == RequireOrder ==> p.operands == [])
            && forall i :: 0 <= i < |p.events| ==> IsSetting(p.events[i].code)
  {
    hide Parse, Answers, IsSetting, Written, Intended, Typable, Words, Starved;
    var s := Settings(false, None, None, None, true, true);
    AsWritten(rs, None, cfg);
    AllGranted(rs, None, s, cfg);
    ReadingRecoversMeaning(AsIntents(rs), None, cfg);
    assert TypedAll(rs) + Ending(None) == TypedAll(rs);
    var p := Read(TypedAll(rs), cfg);
    SettingCodes(p.events, Intended(AsIntents(rs), None, cfg).events);
    AllReported(TypedAll(rs), cfg);
    NoneStarved(p.events);
    if cfg.ordering == RequireOrder {
      NoWords(rs);
    }
  }

  lemma NoneStarved(events: seq<Event>)
    requires WellReported(events) && forall i :: 0 <= i < |events| ==> IsSetting(events[i].code)
    ensures !Starved(events)
  {
  }

  /** Behind requests, the first answer that is neither a setting nor `-c` decides. */
  lemma FirstOther(name: string, rs: seq<Request>, tail: seq<string>, start: Settings, cfg: Config)
    requires cfg == ConfigFor(cfg.ordering) && cfg.ordering != ReturnInOrder && AllTypable(rs)
    requires StillOptions(rs, cfg.ordering == RequireOrder)
    requires var t := Read(tail, cfg).events; t != [] && !IsSetting(t[0].code) && t[0].code != 'c' as int
    ensures var args := TypedAll(rs) + tail;
            OutcomeOf([name] + args, Read(args, cfg), start, cfg)
            == if Read(tail, cfg).events[0].code == 'V' as int then Version else Usage
  {
    hide Parse, Answers, Settled, PassedBefore, IsSetting, Starved, AllTypable;
    var pre := TypedAll(rs);
    var p, q, t := Read(pre, cfg), Read(pre + tail, cfg), Read(tail, cfg);
    FrontSettled(rs, cfg);
    ReadAppend(pre, tail, cfg.opts, cfg);
    assert t.events[..0] == [] && Answers([]) == [] && Letters("") == [] by { Empties(); }
    SettledInFront(p.events, q.events, t.events, "", start);
  }

  lemma Empties()
    ensures Answers([]) == [] && Letters("") == []
  {
  }

  lemma FirstAnswer(args: seq<string>, cfg: Config)
    requires args != [] && args[0] != TERMINATOR && !IsOperand(args[0])
    ensures Read(args, cfg).events != []
    ensures Read(args, cfg).events[0]
            == Decode(args[0], OptionText(args[0], cfg.table), args[1..], cfg.opts, cfg.table).event
  {
    hide DecodeShort, DecodeLong, Decode, Parse;
    ParseFront(args, cfg.opts, cfg);
  }

  /** A letter at the front of its element. */
  lemma LetterFirst(letter: char, more: string, rest: seq<string>, cfg: Config)
    requires letter != '-' && letter != '\0'
    ensures var e := ['-', letter] + more;
            var t := Read([e] + rest, cfg).events;
            t != [] && t[0] == DecodeShort([letter] + more, rest, cfg.opts).event
  {
    hide DecodeShort, DecodeLong, Parse;
    var args := [['-', letter] + more] + rest;
    assert args[0][0] == '-' && args[0][1] == letter;
    FirstAnswer(args, cfg);
    assert args[0][1..] == [letter] + more && args[1..] == rest;
  }

  /** A long option. */
  lemma NameFirst(text: string, rest: seq<string>, cfg: Config)
    requires text != "" && cfg.table.Some?
    ensures var t := Read(["--" + text] + rest, cfg).events;
            t != [] && t[0] == DecodeLong(text, rest, cfg.opts, cfg.table.value).event
  {
    hide DecodeShort, DecodeLong, Parse;
    var args := ["--" + text] + rest;
    assert |args[0]| > 2 && args[0][0] == '-' && args[0][1] == '-';
    FirstAnswer(args, cfg);
    assert args[0][2..] == text && args[1..] == rest;
  }

  /** `-h`, `-V`, an unknown letter, and a letter that lacks its argument at the end, behind any requests. */
  lemma LettersDecide(name: string, rs: seq<Request>, letter: char, more: string, rest: seq<string>, start: Settings,
                      posixlyCorrect: bool)
    requires AllTypable(rs) && StillOptions(rs, posixlyCorrect) && letter != '-' && letter != '\0'
    ensures var cfg := ConfigFor(if posixlyCorrect then RequireOrder else Permute);
            var args := TypedAll(rs) + ([['-', letter] + more] + rest);
            var outcome := OutcomeOf([name] + args, Read(args, cfg), start, cfg);
            && (letter == 'h' ==> outcome == Usage)
            && (letter == 'V' ==> outcome == Version)
            && (letter !in "hViufdxyc" ==> outcome == Usage)
            && (letter in "ufdc" && more == "" && rest == [] ==> outcome == Usage)
  {
    hide Parse, OutcomeOf, KindOf, AllTypable, StillOptions, DecodeShort;
    var cfg := ConfigFor(if posixlyCorrect then RequireOrder else Permute);
    var tail := [['-', letter] + more] + rest;
    LetterFirst(letter, more, rest, cfg);
    var e := DecodeShort([letter] + more, rest, OPTSTRING).event;
    LetterCode(letter, more, rest);
    if letter in "hV" || letter !in "hViufdxyc" || (letter in "ufdc" && more == "" && rest == []) {
      FirstOther(name, rs, tail, start, cfg);
    }
  }

  lemma LetterCode(letter: char, more: string, rest: seq<string>)
    ensures var code := DecodeShort([letter] + more, rest, OPTSTRING).event.code;
            && (letter in "hV" ==> code == letter as int)
            && (letter !in "hViufdxyc" ==> code == '?' as int)
            && (letter in "ufdc" && more == "" && rest == [] ==> code == '?' as int)
  {
    hide KindOf, DecodeShort;
    SwitchesDeclared();
    ArgumentsDeclared();
    LetterRefused(letter, more, rest, OPTSTRING);
    if letter in "hV" {
      PlainCode(letter, more, rest);
    }
    if letter !in "hViufdxyc" {
      assert letter == ':' || letter !in OPTSTRING;
    }
  }

  lemma PlainCode(letter: char, more: string, rest: seq<string>)
    requires KindOf(letter, OPTSTRING) == Plain
    ensures DecodeShort([letter] + more, rest, OPTSTRING).event.code == letter as int
  {
    hide IndexOf;
    assert ([letter] + more)[0] == letter;
  }

  /** The names of the long options. */
  const NAMES := ["help", "version", "user", "login", "logfile", "logdir", "no-logfile", "no-syslog"]

  /** Fits no name, or is an abbreviation of more than one. */
  ghost predicate Meaningless(name: string) {
    || (forall n :: n in NAMES ==> !(name <= n))
    || (name !in NAMES && exists i, j :: 0 <= i < j < |NAMES| && name <= NAMES[i] && name <= NAMES[j])
  }

  /** The table lists these names, each with a value of its own. */
  ghost predicate Lists(table: seq<LongOption>, names: seq<string>) {
    && |table| == |names|
    && (forall i :: 0 <= i < |table| ==> table[i].name == names[i])
    && (forall i, j :: 0 <= i < j < |table| ==> table[i].val != table[j].val)
  }

  lemma TableLists()
    ensures Lists(LONG_OPTIONS, NAMES)
  {
  }

  lemma MeaninglessInTable(name: string)
    requires Meaningless(name)
    ensures (forall i :: 0 <= i < |LONG_OPTIONS| ==> !(name <= LONG_OPTIONS[i].name)) || Conflicting(LONG_OPTIONS, name)
  {
    hide Lists;
    TableLists();
    NoneOrMore(LONG_OPTIONS, NAMES, name);
  }

  lemma NoneOrMore(table: seq<LongOption>, names: seq<string>, name: string)
    requires Lists(table, names)
    requires || (forall n :: n in names ==> !(name <= n))
             || (name !in names && exists i, j :: 0 <= i < j < |names| && name <= names[i] && name <= names[j])
    ensures (forall i :: 0 <= i < |table| ==> !(name <= table[i].name)) || Conflicting(table, name)
  {
    assert forall i :: 0 <= i < |table| ==> table[i].name in names;
    if !(forall n :: n in names ==> !(name <= n)) {
      var i, j :| 0 <= i < j < |names| && name <= names[i] && name <= names[j];
      assert name <= table[i].name && name <= table[j].name;
    }
  }

  /** Long options that end the process, behind any requests: `--help`, `--version`, a name that means nothing or
      too much, a value for an option that takes none, and an argument that is missing at the end. */
  lemma NamesDecide(name: string, rs: seq<Request>, typed: string, value: Option<string>, rest: seq<string>,
                    start: Settings, posixlyCorrect: bool)
    requires AllTypable(rs) && StillOptions(rs, posixlyCorrect) && '=' !in typed && TypedName(typed, value) != ""
    ensures var cfg := ConfigFor(if posixlyCorrect then RequireOrder else Permute);
            var args := TypedAll(rs) + (["--" + TypedName(typed, value)] + rest);
            var outcome := OutcomeOf([name] + args, Read(args, cfg), start, cfg);
            && (typed == "help" ==> outcome == Usage)
            && (typed == "version" ==> outcome == if value.None? then Version else Usage)
            && (Meaningless(typed) ==> outcome == Usage)
            && (typed in ["login", "no-logfile", "no-syslog"] && value.Some? ==> outcome == Usage)
            && (typed in ["user", "logfile", "logdir"] && value.None? && rest == [] ==> outcome == Usage)
  {
    hide Parse, OutcomeOf, AllTypable, StillOptions, DecodeLong, Meaningless;
    var cfg := ConfigFor(if posixlyCorrect then RequireOrder else Permute);
    var tail := ["--" + TypedName(typed, value)] + rest;
    NameFirst(TypedName(typed, value), rest, cfg);
    NameCode(typed, value, rest);
    if Meaningless(typed) {
      Meaningful(typed);
    }
    if Decides(typed, value, rest) {
      FirstOther(name, rs, tail, start, cfg);
    }
  }

  ghost predicate Decides(typed: string, value: Option<string>, rest: seq<string>) {
    || typed == "help" || typed == "version" || Meaningless(typed)
    || (typed in ["login", "no-logfile", "no-syslog"] && value.Some?)
    || (typed in ["user", "logfile", "logdir"] && value.None? && rest == [])
  }

  lemma NameCode(typed: string, value: Option<string>, rest: seq<string>)
    requires '=' !in typed
    ensures Decides(typed, value, rest) ==>
              var code := DecodeLong(TypedName(typed, value), rest, OPTSTRING, LONG_OPTIONS).event.code;
              code == if typed == "help" && value.None? then 'h' as int
                      else if typed == "version" && value.None? then 'V' as int else '?' as int
  {
    hide DecodeLong, Meaningless;
    if Meaningless(typed) {
      MeaninglessInTable(typed);
      NameRefused(typed, value, rest, OPTSTRING, LONG_OPTIONS);
      assert typed != "help" && typed != "version" by { Meaningful(typed); }
    } else if typed == "help" {
      SwitchCode(0, typed, value, rest);
    } else if typed == "version" {
      SwitchCode(1, typed, value, rest);
    } else if typed == "login" {
      SwitchCode(3, typed, value, rest);
    } else if typed == "no-logfile" {
      SwitchCode(6, typed, value, rest);
    } else if typed == "no-syslog" {
      SwitchCode(7, typed, value, rest);
    } else if typed == "user" {
      LackCode(2, typed, value, rest);
    } else if typed == "logfile" {
      LackCode(4, typed, value, rest);
    } else if typed == "logdir" {
      LackCode(5, typed, value, rest);
    }
  }

  lemma Meaningful(typed: string)
    requires Meaningless(typed)
    ensures typed != "help" && typed != "version"
  {
    assert NAMES[0] == "help" && NAMES[1] == "version";
    assert "help" in NAMES && "version" in NAMES;
  }

  lemma SwitchCode(index: nat, typed: string, value: Option<string>, rest: seq<string>)
    requires index < |LONG_OPTIONS| && LONG_OPTIONS[index].name == typed && LONG_OPTIONS[index].hasArg == 0
    ensures DecodeLong(TypedName(typed, value), rest, OPTSTRING, LONG_OPTIONS).event.code
            == if value.Some? then '?' as int else LONG_OPTIONS[index].val
  {
    hide DecodeLong, Resolves;
    Named(index, typed);
    ValueRefused(index, typed, value, OPTSTRING, LONG_OPTIONS, rest);
    if value.None? {
      var cfg := ConfigFor(Permute);
      OneNameMeant(index, typed, None, false, cfg);
      var m := Long(index, typed, None, false);
      LongDecoded(m, rest, cfg);
      assert [] + rest == rest && typed + "" == typed;
      assert [Observable(DecodeLong(typed, rest, OPTSTRING, LONG_OPTIONS).event)][0].code == LONG_OPTIONS[index].val;
    }
  }

  lemma LackCode(index: nat, typed: string, value: Option<string>, rest: seq<string>)
    requires index < |LONG_OPTIONS| && LONG_OPTIONS[index].name == typed && LONG_OPTIONS[index].hasArg == 1
    ensures value.None? && rest == [] ==>
              DecodeLong(TypedName(typed, value), rest, OPTSTRING, LONG_OPTIONS).event.code == '?' as int
  {
    hide DecodeLong, Resolves;
    Named(index, typed);
    ValueRefused(index, typed, value, OPTSTRING, LONG_OPTIONS, rest);
  }

  /** Single lines: what each option sets alone. */
  lemma OneRequest(r: Request, start: Settings, posixlyCorrect: bool)
    requires Typable(r) && !r.wish.Word?
    ensures var cfg := ConfigFor(if posixlyCorrect then RequireOrder else Permute);
            OutcomeOf(["rootsh"] + Typed(r), Read(Typed(r), cfg), start, cfg) == Runs(Fulfil(start, r.wish), None)
  {
    hide Parse, OutcomeOf, Typable, Typed, Fulfil;
    RequestsFulfilled("rootsh", [r], None, start, posixlyCorrect);
    assert [r][1..] == [] && Typed(r) + [] + [] == Typed(r);
    assert TypedAll([r]) == Typed(r) && Words([r], None, posixlyCorrect) == [];
    assert Fulfilled(start, [r], posixlyCorrect) == Fulfil(start, r.wish);
  }

  /** `rootsh ls -i` is a login shell that runs `ls`, unless POSIXLY_CORRECT is set: then it runs `ls -i`. */
  lemma OrderingExample(start: Settings)
    ensures var cfg := ConfigFor(Permute);
            OutcomeOf(["rootsh", "ls", "-i"], Read(["ls", "-i"], cfg), start, cfg)
            == Runs(start.(useLoginShell := true), Some("ls "))
    ensures var cfg := ConfigFor(RequireOrder);
            OutcomeOf(["rootsh", "ls", "-i"], Read(["ls", "-i"], cfg), start, cfg) == Runs(start, Some("ls -i "))
  {
    hide Parse, OutcomeOf;
    var rs := [Request(Word("ls"), LongForm), Request(Login, ShortForm)];
    assert rs[1..] == [rs[1]] && [rs[1]][1..] == [];
    assert ["-i"] + [] == ["-i"] && ["ls"] + ["-i"] == ["ls", "-i"] && ["ls", "-i"] + [] == ["ls", "-i"];
    assert TypedAll(rs) == ["ls", "-i"];
    assert ["rootsh"] + ["ls", "-i"] == ["rootsh", "ls", "-i"];
    assert ["ls"][1..] == [] && ["ls", "-i"][1..] == ["-i"] && ["-i"][1..] == [];
    assert "ls" + " " + "" == "ls " && "-i" + " " + "" == "-i " && "ls" + " " + "-i " == "ls -i ";
    RequestsFulfilled("rootsh", rs, None, start, false);
    RequestsFulfilled("rootsh", rs, None, start, true);
  }

  /** `rootsh --no` is ambiguous. */
  lemma AmbiguousExample(start: Settings)
    ensures OutcomeOf(["rootsh", "--no"], Read(["--no"], ConfigFor(Permute)), start, ConfigFor(Permute)) == Usage
  {
    hide Parse, OutcomeOf;
    assert NAMES[6] == "no-logfile" && NAMES[7] == "no-syslog";
    assert "no" <= NAMES[6] && "no" <= NAMES[7] && "no" !in NAMES;
    assert Meaningless("no");
    NamesDecide("rootsh", [], "no", None, [], start, false);
    assert TypedName("no", None) == "no" && "--" + "no" == "--no" && ["--no"] + [] == ["--no"];
    assert TypedAll([]) + ["--no"] == ["--no"] && ["rootsh"] + ["--no"] == ["rootsh", "--no"];
  }
}
