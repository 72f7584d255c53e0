/** What a command line means: a reference reading of an argument vector, element by element from left to
    right, that never moves anything. `Getopt` (src/getopt.c) is proved to report exactly this reading. */
module CommandLine {
  import opened Options
  import opened LongOptions
  import opened Strings

  datatype Ordering = RequireOrder | Permute | ReturnInOrder

  datatype Config = Config(ordering: Ordering, opts: string, table: Option<seq<LongOption>>)

  /** One answer of `getopt`. `longind` and `optopt` are present when the answer stores them, `flagSet` when
      it writes a long option's flag variable. `left` counts the elements not yet scanned. `missing` marks
      the answer given when a required argument is not there because the vector ends. */
  datatype Event = Event(code: int, optarg: Option<string>, longind: Option<nat>, optopt: Option<int>,
                         flagSet: Option<(nat, int)>, left: nat, missing: bool)

  /** A whole reading: the answers in order, the elements that belong to options (with their separate
      arguments and a terminating `--`), the operands, and whether a `--` ended the options. */
  datatype Parsed = Parsed(events: seq<Event>, options: seq<string>, operands: seq<string>, terminated: bool) {
    function After(before: seq<Event>): Parsed { this.(events := before + events) }
    function Behind(taken: seq<string>): Parsed { this.(options := taken + options) }
    function Passing(skipped: seq<string>): Parsed { this.(operands := skipped + operands) }
  }

  const TERMINATOR := "--"

  /** No `W;`, which would make `-W foo` another spelling of `--foo`. */
  predicate NoLongW(opts: string) {
    forall i :: 0 <= i < |opts| - 1 && opts[i] == 'W' ==> opts[i + 1] != ';'
  }

  /** The option characters without the mark of an ordering. */
  function Stripped(opts: string): string {
    if CharAt(opts, 0) == '-' || CharAt(opts, 0) == '+' then opts[1..] else opts
  }

  function OrderingOf(opts: string, posixlyCorrect: bool): Ordering {
    if CharAt(opts, 0) == '-' then ReturnInOrder
    else if CharAt(opts, 0) == '+' || posixlyCorrect then RequireOrder
    else Permute
  }

  /** What a fresh scan is promised to start with: a first `-` or `+` chooses the ordering and is dropped, otherwise
      POSIXLY_CORRECT decides between requiring order and permuting. */
  ghost predicate Chosen(optstring: string, posixlyCorrect: bool, ordering: Ordering, opts: string) {
    && (optstring != "" && optstring[0] == '-' ==> ordering == ReturnInOrder && opts == optstring[1..])
    && (optstring != "" && optstring[0] == '+' ==> ordering == RequireOrder && opts == optstring[1..])
    && (optstring == "" || (optstring[0] != '-' && optstring[0] != '+') ==>
          && ordering == (if posixlyCorrect then RequireOrder else Permute)
          && opts == optstring)
  }

  lemma OrderingChosen(optstring: string, posixlyCorrect: bool)
    ensures Chosen(optstring, posixlyCorrect, OrderingOf(optstring, posixlyCorrect), Stripped(optstring))
  {
  }

  /** An element without option syntax, including a lone `-`. */
  predicate IsOperand(arg: string) {
    CharAt(arg, 0) != '-' || CharAt(arg, 1) == '\0'
  }

  /** Length of a long option's name, which an `=` may end. */
  function NameEnd(text: string): nat {
    IndexOf(text, '=').GetOr(|text|)
  }

  lemma NameEnds(text: string, k: nat)
    requires k <= |text| && '=' !in text[..k] && (k < |text| ==> text[k] == '=')
    ensures NameEnd(text) == k
  {
    IndexIs(text, '=', k);
  }

  /** The next option read from `text`, what is left of `text`, and how many following elements it used. */
  datatype Decoded = Decoded(event: Event, rest: string, used: nat)

  function MissingCode(opts: string): int {
    if CharAt(opts, 0) == ':' then ':' as int else '?' as int
  }

  function DecodeShort(text: string, following: seq<string>, opts: string): (d: Decoded)
    requires text != ""
    ensures |d.rest| < |text| && d.rest == text[|text| - |d.rest|..] && (d.event.optarg.Some? ==> d.rest == "")
    ensures d.used <= |following| && (d.rest != "" ==> d.used == 0)
    ensures d.event.left == if d.rest == "" then |following| - d.used else |following| + 1
  {
    var c, rest := text[0], text[1..];
    var here := if rest == "" then |following| else |following| + 1;
    var k := IndexOf(opts, c);
    var plain := Event(c as int, None, None, None, None, here, false);
    if k.None? || c == ':' then
      Decoded(plain.(code := '?' as int, optopt := Some(c as int)), rest, 0)
    else if CharAt(opts, k.value + 1) != ':' then
      Decoded(plain, rest, 0)
    else if rest != "" then
      Decoded(plain.(optarg := Some(rest), left := |following|), "", 0)
    else if CharAt(opts, k.value + 2) == ':' then
      Decoded(plain, "", 0)
    else if following != [] then
      Decoded(plain.(optarg := Some(following[0]), left := |following| - 1), "", 1)
    else
      Decoded(plain.(code := MissingCode(opts), optopt := Some(c as int), missing := true), "", 0)
  }

  function DecodeLong(text: string, following: seq<string>, opts: string, table: seq<LongOption>): (d: Decoded)
    ensures d.rest == "" && d.used <= |following| && d.event.left == |following| - d.used
  {
    var k := NameEnd(text);
    var r := Resolve(table, text[..k]);
    var refused := Event('?' as int, None, None, Some(0), None, |following|, false);
    if r.Ambiguous? || r.Unknown? then
      Decoded(refused, "", 0)
    else
      var o := table[r.index];
      var found := if o.flag.None?
                   then Event(o.val, None, Some(r.index), None, None, |following|, false)
                   else Event(0, None, Some(r.index), None, Some((o.flag.value, o.val)), |following|, false);
      if k < |text| && o.hasArg == 0 then
        Decoded(refused.(optopt := Some(o.val)), "", 0)
      else if k < |text| then
        Decoded(found.(optarg := Some(text[k + 1..])), "", 0)
      else if o.hasArg != 1 then
        Decoded(found, "", 0)
      else if following != [] then
        Decoded(found.(optarg := Some(following[0]), left := |following| - 1), "", 1)
      else
        Decoded(refused.(code := MissingCode(opts), optopt := Some(o.val), missing := true), "", 0)
  }

  predicate IsLong(element: string, table: Option<seq<LongOption>>) {
    table.Some? && CharAt(element, 1) == '-'
  }

  function Decode(element: string, text: string, following: seq<string>, opts: string,
                  table: Option<seq<LongOption>>): (d: Decoded)
    requires text != ""
    ensures |d.rest| < |text| && d.rest == text[|text| - |d.rest|..] && (d.event.optarg.Some? ==> d.rest == "")
    ensures d.used <= |following| && (d.rest != "" ==> d.used == 0)
    ensures d.event.left == if d.rest == "" then |following| - d.used else |following| + 1
  {
    if IsLong(element, table) then DecodeLong(text, following, opts, table.value)
    else DecodeShort(text, following, opts)
  }

  /** What follows the initial punctuation of an option element. */
  function OptionText(element: string, table: Option<seq<LongOption>>): (text: string)
    requires !IsOperand(element) && element != TERMINATOR
    ensures text != "" && |text| < |element| && text == element[|element| - |text|..]
  {
    if IsLong(element, table) then element[2..] else element[1..]
  }

  datatype Reading = Reading(events: seq<Event>, used: nat)

  /** Reads the rest `text` of one option element: one short option after the other, or a long option. */
  function ReadElement(element: string, text: string, following: seq<string>, opts: string, cfg: Config): (r: Reading)
    requires text != ""
    ensures r.used <= |following| && r.events != []
    decreases |text|
  {
    var d := Decode(element, text, following, opts, cfg.table);
    if d.rest == "" then
      Reading([d.event], d.used)
    else
      var r := ReadElement(element, d.rest, following, cfg.opts, cfg);
      r.(events := [d.event] + r.events)
  }

  /** Reads the elements `args`. The next call of `getopt` sees the option characters `opts`, every later
      one sees `cfg.opts`. */
  ghost function Parse(args: seq<string>, opts: string, cfg: Config): Parsed
    decreases |args|, 0
  {
    if args == [] then
      Parsed([], [], [], false)
    else if args[0] == TERMINATOR then
      Parsed([], [TERMINATOR], args[1..], true)
    else if IsOperand(args[0]) then
      match cfg.ordering
      case Permute => Parse(args[1..], opts, cfg).Passing([args[0]])
      case RequireOrder => Parsed([], [], args, false)
      case ReturnInOrder =>
        var e := Event(1, Some(args[0]), None, None, None, |args| - 1, false);
        Parse(args[1..], cfg.opts, cfg).Behind([args[0]]).After([e])
    else
      ParseElement(args[0], OptionText(args[0], cfg.table), args[1..], opts, cfg)
  }

  /** Reads the rest `text` of an option element, then the elements after it. */
  ghost function ParseElement(element: string, text: string, following: seq<string>, opts: string, cfg: Config): Parsed
    requires text != ""
    decreases |following|, 1
  {
    var own := ReadElement(element, text, following, opts, cfg);
    Parse(following[own.used..], cfg.opts, cfg).Behind([element] + following[..own.used]).After(own.events)
  }

  lemma ParseAtEnd(args: seq<string>, opts: string, cfg: Config)
    requires args != [] ==> cfg.ordering == RequireOrder && args[0] != TERMINATOR && IsOperand(args[0])
    ensures Parse(args, opts, cfg) == Parsed([], [], args, false)
  {
  }

  lemma ParseAtTerminator(args: seq<string>, opts: string, cfg: Config)
    requires args != [] && args[0] == TERMINATOR
    ensures Parse(args, opts, cfg) == Parsed([], [TERMINATOR], args[1..], true)
  {
  }

  lemma ParseAtOption(args: seq<string>, opts: string, cfg: Config)
    requires args != [] && args[0] != TERMINATOR && !IsOperand(args[0])
    ensures Parse(args, opts, cfg) == ParseElement(args[0], OptionText(args[0], cfg.table), args[1..], opts, cfg)
  {
  }

  lemma ElementEnds(element: string, text: string, following: seq<string>, opts: string, cfg: Config)
    requires text != "" && Decode(element, text, following, opts, cfg.table).rest == ""
    ensures var d := Decode(element, text, following, opts, cfg.table);
            ParseElement(element, text, following, opts, cfg)
            == Parse(following[d.used..], cfg.opts, cfg).Behind([element] + following[..d.used]).After([d.event])
  {
    hide DecodeShort, DecodeLong, Decode, Parse;
  }

  lemma ElementContinues(element: string, text: string, following: seq<string>, opts: string, cfg: Config)
    requires text != "" && Decode(element, text, following, opts, cfg.table).rest != ""
    ensures var d := Decode(element, text, following, opts, cfg.table);
            ParseElement(element, text, following, opts, cfg)
            == ParseElement(element, d.rest, following, cfg.opts, cfg).After([d.event])
  {
    hide DecodeShort, DecodeLong, Decode;
    var d := Decode(element, text, following, opts, cfg.table);
    var r := ReadElement(element, d.rest, following, cfg.opts, cfg);
    var q := Parse(following[r.used..], cfg.opts, cfg);
    assert ([d.event] + r.events) + q.events == [d.event] + (r.events + q.events);
  }

  /** How many of `args` the option element in front uses, itself included, and what it reports. */
  ghost function Front(args: seq<string>, opts: string, cfg: Config): (r: Reading)
    requires args != [] && args[0] != TERMINATOR && !IsOperand(args[0])
    ensures 1 <= r.used <= |args|
  {
    var own := ReadElement(args[0], OptionText(args[0], cfg.table), args[1..], opts, cfg);
    own.(used := 1 + own.used)
  }

  lemma ParseFront(args: seq<string>, opts: string, cfg: Config)
    requires args != [] && args[0] != TERMINATOR && !IsOperand(args[0])
    ensures var own := Front(args, opts, cfg);
            Parse(args, opts, cfg) == Parse(args[own.used..], cfg.opts, cfg).Behind(args[..own.used]).After(own.events)
  {
    hide DecodeShort, DecodeLong, Decode, ReadElement;
    var own := ReadElement(args[0], OptionText(args[0], cfg.table), args[1..], opts, cfg);
    assert args[1..][own.used..] == args[1 + own.used..];
    assert [args[0]] + args[1..][..own.used] == args[..1 + own.used];
  }
}
