/** Writing a command line down: what a user means, spelled in any of the ways that the conventions of XBD
    section 12.2 of POSIX.1 and long options allow, is what the reading finds. */
module Spelling {
  import opened Options
  import opened LongOptions
  import opened CommandLine
  import opened Strings
  import opened Readings

  /** A piece of a command line. `Short` groups the argument-less options `flags` with one more option; `Long` is
      the option at `index` of the table under the name `typed`, which may be abbreviated. An argument is
      `attached` to its option or stands in an element of its own. */
  datatype Intent =
    | Operand(text: string)
    | Short(flags: string, letter: char, arg: Option<string>, attached: bool)
    | Long(index: nat, typed: string, arg: Option<string>, attached: bool)

  datatype Kind = Undefined | Plain | Required | Optional

  /** How the option characters declare a letter. */
  function KindOf(letter: char, opts: string): Kind {
    var k := IndexOf(opts, letter);
    if k.None? || letter == ':' then Undefined
    else if CharAt(opts, k.value + 1) != ':' then Plain
    else if CharAt(opts, k.value + 2) == ':' then Optional
    else Required
  }

  /** The conventions of the option characters: a letter takes no argument, has to have one if one `:` follows it,
      and may have one if two follow. */
  lemma DeclaredBy(pre: string, letter: char, post: string)
    requires letter !in pre && letter != ':'
    ensures KindOf(letter, pre + [letter] + post)
            == if post == "" || post[0] != ':' then Plain
               else if |post| > 1 && post[1] == ':' then Optional
               else Required
  {
    var opts := pre + [letter] + post;
    assert opts[..|pre|] == pre && opts[|pre|] == letter && opts[|pre| + 1..] == post;
    IndexIs(opts, letter, |pre|);
    assert post != "" ==> opts[|pre| + 1] == post[0];
    assert |post| > 1 ==> opts[|pre| + 2] == post[1];
  }

  /** A letter that is not among the option characters, and `:` itself, are not declared. */
  lemma NotDeclared(letter: char, opts: string)
    ensures KindOf(letter, opts) == Undefined <==> letter == ':' || letter !in opts
  {
    IndexOccurs(opts, letter);
  }

  lemma {:induction false} IndexOccurs(s: string, c: char)
    ensures IndexOf(s, c).None? <==> c !in s
  {
  }

  ghost predicate AllPlain(flags: string, opts: string) {
    forall i :: 0 <= i < |flags| ==> KindOf(flags[i], opts) == Plain
  }

  predicate Accepts(kind: Kind, arg: Option<string>, attached: bool) {
    match kind
    case Undefined => false
    case Plain => arg.None?
    case Required => arg.Some? && (attached ==> arg.value != "")
    case Optional => arg.Some? ==> attached && arg.value != ""
  }

  ghost predicate WellFormed(m: Intent, cfg: Config) {
    match m
    case Operand(text) => IsOperand(text)
    case Short(flags, letter, arg, attached) =>
      && AllPlain(flags, cfg.opts)
      && (flags + [letter])[0] != '-' && (flags + [letter])[0] != '\0'
      && Accepts(KindOf(letter, cfg.opts), arg, attached)
    case Long(index, typed, arg, attached) =>
      && cfg.table.Some? && index < |cfg.table.value|
      && (Resolves(cfg.table.value, typed, Exact(index)) || Resolves(cfg.table.value, typed, Abbreviation(index)))
      && '=' !in typed && (typed == "" ==> arg.Some? && attached)
      && var o := cfg.table.value[index];
      && (if arg.None? then o.hasArg != 1 else if attached then o.hasArg != 0 else o.hasArg == 1)
  }

  function Spelled(m: Intent): (s: seq<string>)
    ensures s != []
  {
    match m
    case Operand(text) => [text]
    case Short(flags, letter, arg, attached) =>
      if arg.None? then ["-" + flags + [letter]]
      else if attached then ["-" + flags + [letter] + arg.value]
      else ["-" + flags + [letter], arg.value]
    case Long(_, typed, arg, attached) =>
      if arg.None? then ["--" + typed]
      else if attached then ["--" + typed + "=" + arg.value]
      else ["--" + typed, arg.value]
  }

  function Letter(letter: char, arg: Option<string>): Event {
    Event(letter as int, arg, None, None, None, 0, false)
  }

  function Letters(flags: string): seq<Event> {
    seq(|flags|, i requires 0 <= i < |flags| => Letter(flags[i], None))
  }

  /** The answers an intent asks for. */
  function Meant(m: Intent, cfg: Config): seq<Event>
    requires m.Long? ==> cfg.table.Some? && m.index < |cfg.table.value|
  {
    match m
    case Operand(text) =>
      if cfg.ordering == ReturnInOrder then [Event(1, Some(text), None, None, None, 0, false)] else []
    case Short(flags, letter, arg, _) => Letters(flags) + [Letter(letter, arg)]
    case Long(index, _, arg, _) =>
      var o := cfg.table.value[index];
      [if o.flag.None? then Event(o.val, arg, Some(index), None, None, 0, false)
       else Event(0, arg, Some(index), None, Some((o.flag.value, o.val)), 0, false)]
  }

  ghost predicate AllWellFormed(ms: seq<Intent>, cfg: Config) {
    forall i :: 0 <= i < |ms| ==> WellFormed(ms[i], cfg)
  }

  /** What is written: the intents and, if `end` is given, `--` and the operands behind it. */
  function Written(ms: seq<Intent>, end: Option<seq<string>>): seq<string> {
    if ms != [] then Spelled(ms[0]) + Written(ms[1..], end)
    else if end.Some? then [TERMINATOR] + end.value
    else []
  }

  /** The whole reading that a list of intents asks for: an operand is collected, or stops the reading, or is told
      as an answer. */
  ghost function Intended(ms: seq<Intent>, end: Option<seq<string>>, cfg: Config): Parsed
    requires AllWellFormed(ms, cfg)
  {
    if ms == [] then
      if end.Some? then Parsed([], [TERMINATOR], end.value, true) else Parsed([], [], [], false)
    else if ms[0].Operand? && cfg.ordering == RequireOrder then
      Parsed([], [], Written(ms, end), false)
    else
      var p := Intended(ms[1..], end, cfg);
      if ms[0].Operand? && cfg.ordering == Permute then p.Passing(Spelled(ms[0]))
      else p.Behind(Spelled(ms[0])).After(Meant(ms[0], cfg))
  }

  lemma PlainRead(text: string, following: seq<string>, opts: string)
    requires |text| > 1 && KindOf(text[0], opts) == Plain
    ensures var d := DecodeShort(text, following, opts);
            d.rest == text[1..] && d.used == 0 && Observable(d.event) == Letter(text[0], None)
  {
    hide IndexOf;
  }

  /** Grouped letters in front of more text are read one by one. */
  lemma {:induction false} GroupRead(element: string, flags: string, text: string, following: seq<string>, cfg: Config)
    requires AllPlain(flags, cfg.opts) && text != "" && !IsLong(element, cfg.table)
    ensures var r := ReadElement(element, flags + text, following, cfg.opts, cfg);
            var s := ReadElement(element, text, following, cfg.opts, cfg);
            Answers(r.events) == Letters(flags) + Answers(s.events) && r.used == s.used
    decreases |flags|
  {
    hide KindOf, DecodeShort, Answers, Letters;
    if flags == "" {
      assert flags + text == text && Letters("") == [] by { LettersEmpty(); }
    } else {
      var all := flags + text;
      assert all[1..] == flags[1..] + text && all[0] == flags[0];
      GroupRead(element, flags[1..], text, following, cfg);
      PlainRead(all, following, cfg.opts);
      var d := DecodeShort(all, following, cfg.opts);
      var r := ReadElement(element, d.rest, following, cfg.opts, cfg);
      AnswersOfBoth([d.event], r.events);
      LettersNext(flags, d.event);
      var s := ReadElement(element, text, following, cfg.opts, cfg);
      assert [Letter(flags[0], None)] + (Letters(flags[1..]) + Answers(s.events))
             == [Letter(flags[0], None)] + Letters(flags[1..]) + Answers(s.events);
    }
  }

  lemma LettersEmpty()
    ensures Letters("") == []
  {
  }

  lemma LettersNext(flags: string, e: Event)
    requires flags != "" && Observable(e) == Letter(flags[0], None)
    ensures Letters(flags) == Answers([e]) + Letters(flags[1..]) && Answers([e]) == [Letter(flags[0], None)]
  {
  }

  /** The last letter of a group, with the argument behind it in the element or in the next one. */
  lemma LastLetterRead(letter: char, arg: Option<string>, attached: bool, rest: seq<string>, cfg: Config)
    requires Accepts(KindOf(letter, cfg.opts), arg, attached)
    ensures var text := [letter] + if arg.Some? && attached then arg.value else "";
            var own := if arg.Some? && !attached then [arg.value] else [];
            var d := DecodeShort(text, own + rest, cfg.opts);
            d.rest == "" && d.used == |own| && Observable(d.event) == Letter(letter, arg)
  {
    hide IndexOf;
    var text := [letter] + if arg.Some? && attached then arg.value else "";
    assert text[1..] == if arg.Some? && attached then arg.value else "";
  }

  /** The reading of one spelled option. */
  lemma ShortRead(m: Intent, rest: seq<string>, cfg: Config)
    requires m.Short? && WellFormed(m, cfg)
    ensures var args := Spelled(m) + rest;
            && args[0] != TERMINATOR && !IsOperand(args[0])
            && var r := Front(args, cfg.opts, cfg);
            && Answers(r.events) == Meant(m, cfg) && r.used == |Spelled(m)|
  {
    hide KindOf, DecodeShort;
    var args := Spelled(m) + rest;
    var text := [m.letter] + if m.arg.Some? && m.attached then m.arg.value else "";
    var own := if m.arg.Some? && !m.attached then [m.arg.value] else [];
    assert args[0] == "-" + (m.flags + text);
    assert args[0][1] == (m.flags + [m.letter])[0];
    assert OptionText(args[0], cfg.table) == m.flags + text;
    assert args[1..] == own + rest;
    GroupRead(args[0], m.flags, text, own + rest, cfg);
    LastLetterRead(m.letter, m.arg, m.attached, rest, cfg);
    var d := DecodeShort(text, own + rest, cfg.opts);
    assert ReadElement(args[0], text, own + rest, cfg.opts, cfg) == Reading([d.event], d.used);
  }

  lemma LongDecoded(m: Intent, rest: seq<string>, cfg: Config)
    requires m.Long? && WellFormed(m, cfg)
    ensures var text := m.typed + if m.arg.Some? && m.attached then "=" + m.arg.value else "";
            var own := if m.arg.Some? && !m.attached then [m.arg.value] else [];
            var d := DecodeLong(text, own + rest, cfg.opts, cfg.table.value);
            d.used == |own| && [Observable(d.event)] == Meant(m, cfg)
  {
    hide IndexOf, Resolve, Resolves;
    var text := m.typed + if m.arg.Some? && m.attached then "=" + m.arg.value else "";
    NameEnds(text, |m.typed|);
    assert text[..|m.typed|] == m.typed;
    NameResolved(m, cfg);
    assert m.arg.Some? && m.attached ==> text[|m.typed| + 1..] == m.arg.value;
  }

  lemma NameResolved(m: Intent, cfg: Config)
    requires m.Long? && WellFormed(m, cfg)
    ensures Resolve(cfg.table.value, m.typed) in {Exact(m.index), Abbreviation(m.index)}
  {
    hide Resolve, Resolves;
    var table := cfg.table.value;
    if Resolves(table, m.typed, Exact(m.index)) {
      ResolutionUnique(table, m.typed, Resolve(table, m.typed), Exact(m.index));
    } else {
      ResolutionUnique(table, m.typed, Resolve(table, m.typed), Abbreviation(m.index));
    }
  }

  lemma LongRead(m: Intent, rest: seq<string>, cfg: Config)
    requires m.Long? && WellFormed(m, cfg)
    ensures var args := Spelled(m) + rest;
            && args[0] != TERMINATOR && !IsOperand(args[0])
            && var r := Front(args, cfg.opts, cfg);
            && Answers(r.events) == Meant(m, cfg) && r.used == |Spelled(m)|
  {
    hide DecodeLong, DecodeShort, Resolves;
    var args := Spelled(m) + rest;
    var text := m.typed + if m.arg.Some? && m.attached then "=" + m.arg.value else "";
    var own := if m.arg.Some? && !m.attached then [m.arg.value] else [];
    assert args[0] == "--" + text;
    assert OptionText(args[0], cfg.table) == text;
    assert args[1..] == own + rest;
    LongDecoded(m, rest, cfg);
    var d := DecodeLong(text, own + rest, cfg.opts, cfg.table.value);
    assert ReadElement(args[0], text, own + rest, cfg.opts, cfg) == Reading([d.event], d.used);
  }

  /** The reading finds what `p` asks for. */
  ghost predicate Recovers(q: Parsed, p: Parsed) {
    && Answers(q.events) == p.events
    && q.options == p.options && q.operands == p.operands && q.terminated == p.terminated
  }

  lemma OptionRecovered(m: Intent, rest: seq<string>, p: Parsed, cfg: Config)
    requires !m.Operand? && WellFormed(m, cfg) && Recovers(Read(rest, cfg), p)
    ensures Recovers(Read(Spelled(m) + rest, cfg), p.Behind(Spelled(m)).After(Meant(m, cfg)))
  {
    hide Parse, Front, Answers, Meant, WellFormed, Spelled;
    var spelled := Spelled(m);
    var args := spelled + rest;
    if m.Short? { ShortRead(m, rest, cfg); } else { LongRead(m, rest, cfg); }
    var own := Front(args, cfg.opts, cfg);
    ParseFront(args, cfg.opts, cfg);
    assert args[|spelled|..] == rest && args[..|spelled|] == spelled;
    AnswersOfBoth(own.events, Read(rest, cfg).events);
  }

  lemma OperandRecovered(m: Intent, rest: seq<string>, p: Parsed, cfg: Config)
    requires m.Operand? && WellFormed(m, cfg) && cfg.ordering != RequireOrder && Recovers(Read(rest, cfg), p)
    ensures Recovers(Read(Spelled(m) + rest, cfg),
                     if cfg.ordering == Permute then p.Passing(Spelled(m))
                     else p.Behind(Spelled(m)).After(Meant(m, cfg)))
  {
    var args := Spelled(m) + rest;
    assert args[1..] == rest && args[0] == m.text && Spelled(m) == [m.text];
    if cfg.ordering == ReturnInOrder {
      var e := Event(1, Some(m.text), None, None, None, |args| - 1, false);
      var q := Read(rest, cfg);
      assert Read(args, cfg) == q.Behind([m.text]).After([e]);
      AnswersOfBoth([e], q.events);
      assert Answers([e]) == Meant(m, cfg);
    }
  }

  /** Reading what was written recovers what was meant, in every ordering: every answer, and the operands in
      order. */
  lemma {:induction false} ReadingRecoversMeaning(ms: seq<Intent>, end: Option<seq<string>>, cfg: Config)
    requires AllWellFormed(ms, cfg)
    ensures Recovers(Read(Written(ms, end), cfg), Intended(ms, end, cfg))
    decreases |ms|
  {
    hide DecodeShort, DecodeLong, Decode, ReadElement, Spelled, Meant, Recovers;
    if ms == [] {
      assert Recovers(Read(Written(ms, end), cfg), Intended(ms, end, cfg)) by { EndRecovered(end, cfg); }
    } else if !ms[0].Operand? {
      ReadingRecoversMeaning(ms[1..], end, cfg);
      OptionRecovered(ms[0], Written(ms[1..], end), Intended(ms[1..], end, cfg), cfg);
    } else if cfg.ordering == RequireOrder {
      StoppedRecovered(ms, end, cfg);
    } else {
      ReadingRecoversMeaning(ms[1..], end, cfg);
      OperandRecovered(ms[0], Written(ms[1..], end), Intended(ms[1..], end, cfg), cfg);
    }
  }

  lemma EndRecovered(end: Option<seq<string>>, cfg: Config)
    ensures Recovers(Read(Written([], end), cfg), Intended([], end, cfg))
  {
    if end.Some? {
      ParseAtTerminator([TERMINATOR] + end.value, cfg.opts, cfg);
    }
  }

  lemma StoppedRecovered(ms: seq<Intent>, end: Option<seq<string>>, cfg: Config)
    requires AllWellFormed(ms, cfg) && ms != [] && ms[0].Operand? && cfg.ordering == RequireOrder
    ensures Recovers(Read(Written(ms, end), cfg), Intended(ms, end, cfg))
  {
    assert WellFormed(ms[0], cfg);
    var args := Written(ms, end);
    assert args[0] == ms[0].text;
    ParseAtEnd(args, cfg.opts, cfg);
  }

  lemma {:induction false} IntendedObservable(ms: seq<Intent>, end: Option<seq<string>>, cfg: Config)
    requires AllWellFormed(ms, cfg)
    ensures Answers(Intended(ms, end, cfg).events) == Intended(ms, end, cfg).events
    decreases |ms|
  {
    hide Letters, Spelled;
    if ms != [] {
      IntendedObservable(ms[1..], end, cfg);
      MeantObservable(ms[0], cfg);
      AnswersOfBoth(Meant(ms[0], cfg), Intended(ms[1..], end, cfg).events);
    }
  }

  lemma MeantObservable(m: Intent, cfg: Config)
    requires m.Long? ==> cfg.table.Some? && m.index < |cfg.table.value|
    ensures Answers(Meant(m, cfg)) == Meant(m, cfg)
  {
  }

  /** A long option as it is typed, with or without a value behind `=`. */
  function TypedName(name: string, value: Option<string>): string {
    if value.Some? then name + "=" + value.value else name
  }

  lemma NameTyped(name: string, value: Option<string>)
    requires '=' !in name
    ensures var text := TypedName(name, value); NameEnd(text) == |name| && text[..|name|] == name
    ensures |name| < |TypedName(name, value)| <==> value.Some?
  {
    hide IndexOf;
    var text := TypedName(name, value);
    assert text[..|name|] == name;
    NameEnds(text, |name|);
  }

  /** A name that no entry begins with, or that fits entries that do different things, is answered `?`. */
  lemma NameRefused(name: string, value: Option<string>, following: seq<string>, opts: string, table: seq<LongOption>)
    requires '=' !in name
    requires (forall i :: 0 <= i < |table| ==> !(name <= table[i].name)) || Conflicting(table, name)
    ensures DecodeLong(TypedName(name, value), following, opts, table)
            == Decoded(Event('?' as int, None, None, Some(0), None, |following|, false), "", 0)
  {
    hide IndexOf, NameEnd, Resolves;
    NameTyped(name, value);
    NameMeans(table, name, Resolve(table, name));
  }

  /** So is a value for an option that takes none, or a required argument that is missing at the end of the vector,
      unless the option characters begin with `:`. */
  lemma ValueRefused(index: nat, name: string, value: Option<string>, opts: string, table: seq<LongOption>,
                     following: seq<string>)
    requires '=' !in name && index < |table|
    requires Resolves(table, name, Exact(index)) || Resolves(table, name, Abbreviation(index))
    ensures var d := DecodeLong(TypedName(name, value), following, opts, table);
            && (value.Some? && table[index].hasArg == 0 ==>
                  d == Decoded(Event('?' as int, None, None, Some(table[index].val), None, |following|, false), "", 0))
            && (value.None? && table[index].hasArg == 1 && following == [] ==>
                  && d.event.code == (if opts != "" && opts[0] == ':' then ':' as int else '?' as int)
                  && d.event.optopt == Some(table[index].val) && d.event.optarg == None && d.event.longind == None)
  {
    hide IndexOf, NameEnd, Resolves, Resolve;
    NameTyped(name, value);
    if Resolves(table, name, Exact(index)) {
      ResolutionUnique(table, name, Resolve(table, name), Exact(index));
    } else {
      ResolutionUnique(table, name, Resolve(table, name), Abbreviation(index));
    }
  }

  /** A letter that is not declared, or whose required argument is missing at the end of the vector, is refused: with
      `?`, and in the second case with `:` if the option characters begin with it. */
  lemma LetterRefused(letter: char, more: string, following: seq<string>, opts: string)
    ensures letter !in opts || letter == ':' ==>
              var d := DecodeShort([letter] + more, following, opts);
              && d.event.code == '?' as int && d.event.optopt == Some(letter as int) && d.event.optarg == None
              && d.rest == more && d.used == 0
    ensures KindOf(letter, opts) == Required && more == "" && following == [] ==>
              var d := DecodeShort([letter] + more, following, opts);
              && d.event.code == (if opts != "" && opts[0] == ':' then ':' as int else '?' as int)
              && d.event.optopt == Some(letter as int) && d.event.optarg == None && d.used == 0
  {
    hide IndexOf;
    NotDeclared(letter, opts);
    assert ([letter] + more)[0] == letter && ([letter] + more)[1..] == more;
  }
}
