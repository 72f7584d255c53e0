/** The mark `+` or `-` in front of the option characters (src/getopt.c:401-410): only the call that initializes
    the scan drops it (src/getopt.c:523-529). When the later calls, which see it, report the same. */
module Marks {
  import opened Options
  import opened LongOptions
  import opened CommandLine
  import opened Strings
  import opened Readings
  import opened Replays
  import opened Spelling
  import opened InOrder

  ghost predicate Marked(opts: string) {
    CharAt(opts, 0) == '+' || CharAt(opts, 0) == '-'
  }

  /** All letters but the mark are declared in the same way with the mark and without it; the mark is declared by
      standing in front, and a `:` behind it silences nothing while it is seen. */
  lemma MarkSeenLater(opts: string, letter: char)
    requires Marked(opts)
    ensures letter != opts[0] ==> KindOf(letter, Stripped(opts)) == KindOf(letter, opts)
    ensures opts[0] !in opts[1..] ==> KindOf(opts[0], Stripped(opts)) == Undefined
    ensures KindOf(opts[0], opts) != Undefined
    ensures MissingCode(opts) == '?' as int && (MissingCode(Stripped(opts)) == ':' as int <==> CharAt(opts, 1) == ':')
  {
    assert opts == [opts[0]] + opts[1..];
  }

  /** What a letter makes of the rest of its element and of the elements behind it. */
  datatype Use = Refused | Alone | Attached | Separate

  function UseOf(kind: Kind, text: string, following: seq<string>): Use {
    match kind
    case Undefined => Refused
    case Plain => Alone
    case Optional => if |text| > 1 then Attached else Alone
    case Required => if |text| > 1 then Attached else if following != [] then Separate else Refused
  }

  /** An answer that the mark changes: the letter read is used differently once the mark is declared, or an
      argument is missing while a `:` stands behind the mark. */
  ghost predicate MarkMatters(spot: Spot, opts: string, table: Option<seq<LongOption>>) {
    match spot
    case Told(_, _) => false
    case OptionAt(element, text, following) =>
      text != "" && (
        || (CharAt(opts, 1) == ':' && Decode(element, text, following, Stripped(opts), table).event.missing)
        || (!IsLong(element, table)
            && UseOf(KindOf(text[0], Stripped(opts)), text, following)
               != UseOf(KindOf(text[0], opts), text, following)))
  }

  function ByKind(kind: Kind, text: string, following: seq<string>, missingCode: int): Decoded
    requires text != ""
  {
    var c, rest := text[0], text[1..];
    var plain := Event(c as int, None, None, None, None, if rest == "" then |following| else |following| + 1, false);
    if kind == Undefined then Decoded(plain.(code := '?' as int, optopt := Some(c as int)), rest, 0)
    else if kind == Plain then Decoded(plain, rest, 0)
    else if rest != "" then Decoded(plain.(optarg := Some(rest), left := |following|), "", 0)
    else if kind == Optional then Decoded(plain, "", 0)
    else if following != [] then Decoded(plain.(optarg := Some(following[0]), left := |following| - 1), "", 1)
    else Decoded(plain.(code := missingCode, optopt := Some(c as int), missing := true), "", 0)
  }

  lemma ShortByKind(text: string, following: seq<string>, opts: string)
    requires text != ""
    ensures DecodeShort(text, following, opts) == ByKind(KindOf(text[0], opts), text, following, MissingCode(opts))
  {
    hide IndexOf, MissingCode;
  }

  /** Two ways of declaring a letter, the second of them where no `:` silences: when they report the same. */
  lemma KindsCompared(was: Kind, now: Kind, text: string, following: seq<string>, silent: bool)
    requires text != "" && text[0] != '?' && text[0] != ':'
    requires now != Undefined || was == Undefined
    ensures var d := ByKind(was, text, following, if silent then ':' as int else '?' as int);
            var e := ByKind(now, text, following, '?' as int);
            var same := !(silent && d.event.missing) && UseOf(was, text, following) == UseOf(now, text, following);
            && (Observable(e.event) == Observable(d.event) <==> same)
            && (same ==> e.rest == d.rest && e.used == d.used)
  {
  }

  lemma SameKindCompared(kind: Kind, text: string, following: seq<string>, silent: bool)
    requires text != ""
    ensures var d := ByKind(kind, text, following, if silent then ':' as int else '?' as int);
            var e := ByKind(kind, text, following, '?' as int);
            && (Observable(e.event) == Observable(d.event) <==> !(silent && d.event.missing))
            && e.rest == d.rest && e.used == d.used
  {
  }

  lemma LongCompared(text: string, following: seq<string>, opts: string, table: seq<LongOption>)
    requires Marked(opts)
    ensures var d, e := DecodeLong(text, following, Stripped(opts), table), DecodeLong(text, following, opts, table);
            && (Observable(e.event) == Observable(d.event) <==> !(CharAt(opts, 1) == ':' && d.event.missing))
            && e.rest == d.rest && e.used == d.used
  {
    hide Resolve, NameEnd;
  }

  /** The mark changes an answer exactly where it matters. */
  lemma MarkCompared(spot: Spot, opts: string, table: Option<seq<LongOption>>)
    requires Marked(opts) && spot.OptionAt? && spot.text != ""
    ensures var d := Decode(spot.element, spot.text, spot.following, Stripped(opts), table);
            var e := Decode(spot.element, spot.text, spot.following, opts, table);
            && (Observable(e.event) == Observable(d.event) <==> !MarkMatters(spot, opts, table))
            && (!MarkMatters(spot, opts, table) ==> e.rest == d.rest && e.used == d.used)
  {
    hide DecodeShort, DecodeLong, KindOf, ByKind, UseOf;
    var text, following := spot.text, spot.following;
    if IsLong(spot.element, table) {
      LongCompared(text, following, opts, table.value);
    } else {
      var silent := CharAt(opts, 1) == ':';
      MarkSeenLater(opts, text[0]);
      assert MissingCode(Stripped(opts)) == if silent then ':' as int else '?' as int;
      ShortByKind(text, following, opts);
      ShortByKind(text, following, Stripped(opts));
      if text[0] == opts[0] {
        KindsCompared(KindOf(text[0], Stripped(opts)), KindOf(text[0], opts), text, following, silent);
      } else {
        SameKindCompared(KindOf(text[0], opts), text, following, silent);
      }
    }
  }

  /** The same scan without the first mark for any call. If the characters behind it begin with a mark again, as in
      `++a`, that is a letter here, and no run of `getopt` reads them so. */
  function Unmarked(cfg: Config): Config {
    cfg.(opts := Stripped(cfg.opts))
  }

  ghost predicate Harmless(spots: seq<Spot>, from: nat, opts: string, table: Option<seq<LongOption>>) {
    forall k :: from <= k < |spots| ==> !MarkMatters(spots[k], opts, table)
  }

  /** Two readings, with the spots of their answers, that say the same. */
  ghost predicate Agree(q: Parsed, r: Parsed, sq: seq<Spot>, sr: seq<Spot>) {
    && Answers(q.events) == Answers(r.events)
    && q.options == r.options && q.operands == r.operands && q.terminated == r.terminated && sq == sr
  }

  /** Two readings that part at answer `k`. */
  ghost predicate PartAt(q: Parsed, r: Parsed, sq: seq<Spot>, sr: seq<Spot>, k: nat) {
    && k < |q.events| && k < |r.events| && k < |sq| && k < |sr|
    && sq[..k + 1] == sr[..k + 1] && sr[k].OptionAt?
    && Answers(q.events[..k]) == Answers(r.events[..k])
    && Observable(q.events[k]) != Observable(r.events[k])
  }

  /** The reading `q` with the mark and `r` without it agree, or part at some answer: as the mark matters to an
      answer from number `from` on. */
  ghost predicate Lockstep(q: Parsed, r: Parsed, sq: seq<Spot>, sr: seq<Spot>, from: nat, opts: string,
                           table: Option<seq<LongOption>>) {
    if Harmless(sr, from, opts, table) then Agree(q, r, sq, sr) else exists k: nat :: PartAt(q, r, sq, sr, k)
  }

  lemma LockstepBehind(q: Parsed, r: Parsed, sq: seq<Spot>, sr: seq<Spot>, from: nat, opts: string,
                       table: Option<seq<LongOption>>, taken: seq<string>)
    requires Lockstep(q, r, sq, sr, from, opts, table)
    ensures Lockstep(q.Behind(taken), r.Behind(taken), sq, sr, from, opts, table)
  {
    hide Harmless;
    if !Harmless(sr, from, opts, table) {
      var k: nat :| PartAt(q, r, sq, sr, k);
      assert PartAt(q.Behind(taken), r.Behind(taken), sq, sr, k);
    }
  }

  lemma LockstepPassing(q: Parsed, r: Parsed, sq: seq<Spot>, sr: seq<Spot>, from: nat, opts: string,
                        table: Option<seq<LongOption>>, skipped: seq<string>)
    requires Lockstep(q, r, sq, sr, from, opts, table)
    ensures Lockstep(q.Passing(skipped), r.Passing(skipped), sq, sr, from, opts, table)
  {
    hide Harmless;
    if !Harmless(sr, from, opts, table) {
      var k: nat :| PartAt(q, r, sq, sr, k);
      assert PartAt(q.Passing(skipped), r.Passing(skipped), sq, sr, k);
    }
  }

  lemma HarmlessNext(spot: Spot, spots: seq<Spot>, opts: string, table: Option<seq<LongOption>>)
    ensures Harmless([spot] + spots, 1, opts, table) <==> Harmless(spots, 0, opts, table)
    ensures Harmless([spot] + spots, 0, opts, table)
            <==> !MarkMatters(spot, opts, table) && Harmless(spots, 0, opts, table)
  {
    hide MarkMatters;
    var all := [spot] + spots;
    assert forall k :: 0 <= k < |spots| ==> all[k + 1] == spots[k];
    assert all[0] == spot;
  }

  /** One more answer in front, which is the same in both readings. */
  lemma LockstepAfter(q: Parsed, r: Parsed, sq: seq<Spot>, sr: seq<Spot>, from: nat, opts: string,
                      table: Option<seq<LongOption>>, spot: Spot, e: Event, d: Event)
    requires Lockstep(q, r, sq, sr, 0, opts, table) && Observable(e) == Observable(d)
    requires from == 1 || (from == 0 && !MarkMatters(spot, opts, table))
    ensures Lockstep(q.After([e]), r.After([d]), [spot] + sq, [spot] + sr, from, opts, table)
  {
    hide Harmless, MarkMatters, PartAt;
    HarmlessNext(spot, sr, opts, table);
    if Harmless(sr, 0, opts, table) {
      AnswersOfBoth([e], q.events);
      AnswersOfBoth([d], r.events);
      SameAnswer(e, d);
    } else {
      var k: nat :| PartAt(q, r, sq, sr, k);
      PartLater(q, r, sq, sr, k, spot, e, d);
    }
  }

  lemma PartLater(q: Parsed, r: Parsed, sq: seq<Spot>, sr: seq<Spot>, k: nat, spot: Spot, e: Event, d: Event)
    requires PartAt(q, r, sq, sr, k) && Observable(e) == Observable(d)
    ensures PartAt(q.After([e]), r.After([d]), [spot] + sq, [spot] + sr, k + 1)
  {
    hide Answers, Observable;
    assert ([e] + q.events)[..k + 1] == [e] + q.events[..k] && ([d] + r.events)[..k + 1] == [d] + r.events[..k];
    assert ([spot] + sq)[..k + 2] == [spot] + sq[..k + 1] && ([spot] + sr)[..k + 2] == [spot] + sr[..k + 1];
    AnswersOfBoth([e], q.events[..k]);
    AnswersOfBoth([d], r.events[..k]);
    SameAnswer(e, d);
  }

  lemma PartHere(q: Parsed, r: Parsed, sq: seq<Spot>, sr: seq<Spot>, opts: string, table: Option<seq<LongOption>>,
                 spot: Spot)
    requires q.events != [] && r.events != [] && sq != [] && sr != [] && sq[0] == sr[0] == spot && spot.OptionAt?
    requires Observable(q.events[0]) != Observable(r.events[0]) && MarkMatters(spot, opts, table)
    ensures Lockstep(q, r, sq, sr, 0, opts, table)
  {
    hide MarkMatters;
    assert MarkMatters(sr[0], opts, table);
    assert PartAt(q, r, sq, sr, 0);
  }

  /** Inside an option element, at a later call. */
  lemma {:induction false} LaterElement(element: string, text: string, following: seq<string>, cfg: Config)
    requires Marked(cfg.opts) && text != ""
    ensures var plain := Unmarked(cfg);
            Lockstep(ParseElement(element, text, following, cfg.opts, cfg),
                     ParseElement(element, text, following, plain.opts, plain),
                     SpotsIn(element, text, following, cfg.opts, cfg),
                     SpotsIn(element, text, following, plain.opts, plain), 0, cfg.opts, cfg.table)
    decreases |following|, 1, |text|
  {
    hide DecodeShort, DecodeLong, Decode, ReadElement, Parse, ParseElement, Spots, MarkMatters, Lockstep, Stripped;
    var plain := Unmarked(cfg);
    var spot := OptionAt(element, text, following);
    MarkCompared(spot, cfg.opts, cfg.table);
    var e := Decode(element, text, following, cfg.opts, cfg.table);
    var d := Decode(element, text, following, plain.opts, cfg.table);
    AnswerInFront(element, text, following, cfg.opts, cfg);
    AnswerInFront(element, text, following, plain.opts, plain);
    if MarkMatters(spot, cfg.opts, cfg.table) {
      PartHere(ParseElement(element, text, following, cfg.opts, cfg),
               ParseElement(element, text, following, plain.opts, plain),
               SpotsIn(element, text, following, cfg.opts, cfg),
               SpotsIn(element, text, following, plain.opts, plain), cfg.opts, cfg.table, spot);
    } else if e.rest == "" {
      LaterArgs(following[e.used..], cfg);
      EndInLockstep(element, text, following, cfg.opts, plain.opts, cfg, 0);
    } else {
      LaterElement(element, e.rest, following, cfg);
      GoOnInLockstep(element, text, following, cfg.opts, plain.opts, cfg, 0);
    }
  }

  lemma AnswerInFront(element: string, text: string, following: seq<string>, opts: string, cfg: Config)
    requires text != ""
    ensures var d := Decode(element, text, following, opts, cfg.table);
            var p := ParseElement(element, text, following, opts, cfg);
            p.events != [] && p.events[0] == d.event
    ensures var spots := SpotsIn(element, text, following, opts, cfg);
            spots != [] && spots[0] == OptionAt(element, text, following)
  {
    hide DecodeShort, DecodeLong, Decode, ReadElement, Parse, ParseElement, Spots;
    if Decode(element, text, following, opts, cfg.table).rest == "" {
      ElementEnds(element, text, following, opts, cfg);
    } else {
      ElementContinues(element, text, following, opts, cfg);
    }
  }

  /** The last option of an element, read alike by calls that see `opts` and `other`. */
  lemma EndInLockstep(element: string, text: string, following: seq<string>, opts: string, other: string, cfg: Config,
                      from: nat)
    requires text != "" && var spot := OptionAt(element, text, following);
             from == 1 || (from == 0 && !MarkMatters(spot, cfg.opts, cfg.table))
    requires var e := Decode(element, text, following, opts, cfg.table);
             var d := Decode(element, text, following, other, cfg.table);
             && Observable(e.event) == Observable(d.event) && e.rest == d.rest == "" && e.used == d.used
             && var args, plain := following[e.used..], Unmarked(cfg);
             Lockstep(Read(args, cfg), Read(args, plain), Spots(args, cfg.opts, cfg), Spots(args, plain.opts, plain), 0,
                      cfg.opts, cfg.table)
    ensures var plain := Unmarked(cfg);
            Lockstep(ParseElement(element, text, following, opts, cfg),
                     ParseElement(element, text, following, other, plain),
                     SpotsIn(element, text, following, opts, cfg),
                     SpotsIn(element, text, following, other, plain), from, cfg.opts, cfg.table)
  {
    hide DecodeShort, DecodeLong, Decode, ReadElement, Parse, ParseElement, Spots, MarkMatters, Lockstep, Stripped;
    var plain := Unmarked(cfg);
    var e := Decode(element, text, following, opts, cfg.table);
    var d := Decode(element, text, following, other, cfg.table);
    var args := following[e.used..];
    ElementEnds(element, text, following, opts, cfg);
    ElementEnds(element, text, following, other, plain);
    var sq, sr := Spots(args, cfg.opts, cfg), Spots(args, plain.opts, plain);
    var taken := [element] + following[..e.used];
    LockstepBehind(Read(args, cfg), Read(args, plain), sq, sr, 0, cfg.opts, cfg.table, taken);
    LockstepAfter(Read(args, cfg).Behind(taken), Read(args, plain).Behind(taken), sq, sr, from, cfg.opts, cfg.table,
                  OptionAt(element, text, following), e.event, d.event);
  }

  /** An option inside an element. */
  lemma GoOnInLockstep(element: string, text: string, following: seq<string>, opts: string, other: string, cfg: Config,
                       from: nat)
    requires text != "" && var spot := OptionAt(element, text, following);
             from == 1 || (from == 0 && !MarkMatters(spot, cfg.opts, cfg.table))
    requires var e := Decode(element, text, following, opts, cfg.table);
             var d := Decode(element, text, following, other, cfg.table);
             && Observable(e.event) == Observable(d.event) && e.rest == d.rest != ""
             && var plain := Unmarked(cfg);
             Lockstep(ParseElement(element, e.rest, following, cfg.opts, cfg),
                      ParseElement(element, e.rest, following, plain.opts, plain),
                      SpotsIn(element, e.rest, following, cfg.opts, cfg),
                      SpotsIn(element, e.rest, following, plain.opts, plain), 0, cfg.opts, cfg.table)
    ensures var plain := Unmarked(cfg);
            Lockstep(ParseElement(element, text, following, opts, cfg),
                     ParseElement(element, text, following, other, plain),
                     SpotsIn(element, text, following, opts, cfg),
                     SpotsIn(element, text, following, other, plain), from, cfg.opts, cfg.table)
  {
    hide DecodeShort, DecodeLong, Decode, ReadElement, Parse, ParseElement, Spots, MarkMatters, Lockstep, Stripped;
    var plain := Unmarked(cfg);
    var e := Decode(element, text, following, opts, cfg.table);
    var d := Decode(element, text, following, other, cfg.table);
    ElementContinues(element, text, following, opts, cfg);
    ElementContinues(element, text, following, other, plain);
    LockstepAfter(ParseElement(element, e.rest, following, cfg.opts, cfg),
                  ParseElement(element, e.rest, following, plain.opts, plain),
                  SpotsIn(element, e.rest, following, cfg.opts, cfg),
                  SpotsIn(element, e.rest, following, plain.opts, plain), from, cfg.opts, cfg.table,
                  OptionAt(element, text, following), e.event, d.event);
  }

  /** Between elements, at a later call. */
  lemma {:induction false} LaterArgs(args: seq<string>, cfg: Config)
    requires Marked(cfg.opts)
    ensures var plain := Unmarked(cfg);
            Lockstep(Read(args, cfg), Read(args, plain), Spots(args, cfg.opts, cfg), Spots(args, plain.opts, plain), 0,
                     cfg.opts, cfg.table)
    decreases |args|, 0, 0
  {
    hide DecodeShort, DecodeLong, Decode, ReadElement, ParseElement, SpotsIn, MarkMatters, Lockstep, Stripped;
    var plain := Unmarked(cfg);
    if args == [] || args[0] == TERMINATOR || (IsOperand(args[0]) && cfg.ordering == RequireOrder) {
      NothingParts(Read(args, cfg), 0, cfg.opts, cfg.table);
    } else if !IsOperand(args[0]) {
      LaterElement(args[0], OptionText(args[0], cfg.table), args[1..], cfg);
    } else {
      LaterArgs(args[1..], cfg);
      OperandInLockstep(args, cfg.opts, plain.opts, cfg, 0);
    }
  }

  lemma NothingParts(p: Parsed, from: nat, opts: string, table: Option<seq<LongOption>>)
    ensures Lockstep(p, p, [], [], from, opts, table)
  {
  }

  /** An operand that is passed or told, when the next call sees `opts` or `other`. */
  lemma OperandInLockstep(args: seq<string>, opts: string, other: string, cfg: Config, from: nat)
    requires args != [] && IsOperand(args[0]) && cfg.ordering != RequireOrder && from <= 1
    requires var plain := Unmarked(cfg);
             var opts', other' := if cfg.ordering == Permute then opts else cfg.opts,
                                  if cfg.ordering == Permute then other else plain.opts;
             var next := if cfg.ordering == Permute then from else 0;
             Lockstep(Parse(args[1..], opts', cfg), Parse(args[1..], other', plain),
                      Spots(args[1..], opts', cfg), Spots(args[1..], other', plain), next, cfg.opts, cfg.table)
    ensures var plain := Unmarked(cfg);
            Lockstep(Parse(args, opts, cfg), Parse(args, other, plain),
                     Spots(args, opts, cfg), Spots(args, other, plain), from, cfg.opts, cfg.table)
  {
    hide DecodeShort, DecodeLong, Decode, ReadElement, ParseElement, SpotsIn, Lockstep, Stripped;
    var plain := Unmarked(cfg);
    if cfg.ordering == Permute {
      LockstepPassing(Parse(args[1..], opts, cfg), Parse(args[1..], other, plain),
                      Spots(args[1..], opts, cfg), Spots(args[1..], other, plain), from, cfg.opts, cfg.table,
                      [args[0]]);
    } else {
      var e := Event(1, Some(args[0]), None, None, None, |args| - 1, false);
      var q, r := Read(args[1..], cfg), Read(args[1..], plain);
      var sq, sr := Spots(args[1..], cfg.opts, cfg), Spots(args[1..], plain.opts, plain);
      LockstepBehind(q, r, sq, sr, 0, cfg.opts, cfg.table, [args[0]]);
      LockstepAfter(q.Behind([args[0]]), r.Behind([args[0]]), sq, sr, from, cfg.opts, cfg.table,
                    Told(args[0], args[1..]), e, e);
    }
  }

  /** From the call that initializes the scan on. */
  lemma {:induction false} InLockstep(args: seq<string>, cfg: Config)
    requires Marked(cfg.opts)
    ensures var plain := Unmarked(cfg);
            Lockstep(Parse(args, plain.opts, cfg), Read(args, plain),
                     Spots(args, plain.opts, cfg), Spots(args, plain.opts, plain), 1, cfg.opts, cfg.table)
    decreases |args|
  {
    hide DecodeShort, DecodeLong, Decode, ReadElement, ParseElement, SpotsIn, MarkMatters, Lockstep, Stripped;
    var plain := Unmarked(cfg);
    if args == [] || args[0] == TERMINATOR || (IsOperand(args[0]) && cfg.ordering == RequireOrder) {
      NothingParts(Read(args, cfg), 1, cfg.opts, cfg.table);
    } else if IsOperand(args[0]) {
      if cfg.ordering == Permute { InLockstep(args[1..], cfg); } else { LaterArgs(args[1..], cfg); }
      OperandInLockstep(args, plain.opts, plain.opts, cfg, 1);
    } else {
      var text := OptionText(args[0], cfg.table);
      var d := Decode(args[0], text, args[1..], plain.opts, cfg.table);
      if d.rest == "" {
        LaterArgs(args[1..][d.used..], cfg);
        EndInLockstep(args[0], text, args[1..], plain.opts, plain.opts, cfg, 1);
      } else {
        LaterElement(args[0], d.rest, args[1..], cfg);
        GoOnInLockstep(args[0], text, args[1..], plain.opts, plain.opts, cfg, 1);
      }
    }
  }

  /** Where the mark matters to a whole scan: to an answer after the first, among those that the same scan without
      a mark gives. */
  ghost predicate MarkHarmless(args: seq<string>, cfg: Config) {
    Harmless(Spots(args, Stripped(cfg.opts), Unmarked(cfg)), 1, cfg.opts, cfg.table)
  }

  /** The mark is only a mark, so that a scan answers what the same scan with unmarked option characters answers:
      exactly when the mark matters to no answer after the first. */
  lemma MarkIsOnlyAMark(args: seq<string>, cfg: Config)
    requires Marked(cfg.opts)
    ensures var q, r := Parse(args, Stripped(cfg.opts), cfg), Read(args, Unmarked(cfg));
            && (Answers(q.events) == Answers(r.events) <==> MarkHarmless(args, cfg))
            && (MarkHarmless(args, cfg) ==>
                  q.options == r.options && q.operands == r.operands && q.terminated == r.terminated)
  {
    hide Parse, Spots, Harmless, Answers, Observable;
    var plain := Unmarked(cfg);
    var q, r := Parse(args, plain.opts, cfg), Read(args, plain);
    var sq, sr := Spots(args, plain.opts, cfg), Spots(args, plain.opts, plain);
    InLockstep(args, cfg);
    if !MarkHarmless(args, cfg) {
      var k: nat :| PartAt(q, r, sq, sr, k);
      AnswerAt(q.events, k);
      AnswerAt(r.events, k);
    }
  }

  lemma AnswerAt(events: seq<Event>, k: nat)
    requires k < |events|
    ensures |Answers(events)| == |events| && Answers(events)[k] == Observable(events[k])
    ensures Answers(events[..k]) == Answers(events)[..k]
  {
  }

  /** A condition on the vector and the option characters that can be checked before the first call: no `:` behind
      the mark, and the mark not in the text of an element that short options may be read from. */
  ghost predicate MarkUnused(args: seq<string>, cfg: Config) {
    && CharAt(cfg.opts, 1) != ':'
    && forall a :: a in args && !IsOperand(a) && !IsLong(a, cfg.table) ==> CharAt(cfg.opts, 0) !in a[1..]
  }

  lemma UnusedIsHarmless(args: seq<string>, cfg: Config)
    requires Marked(cfg.opts) && MarkUnused(args, cfg)
    ensures MarkHarmless(args, cfg)
  {
    hide Parse, Spots, Decode, KindOf, UseOf;
    var plain := Unmarked(cfg);
    var spots, events := Spots(args, plain.opts, plain), Read(args, plain).events;
    SpotsExplain(args, plain.opts, plain);
    forall k | 1 <= k < |spots|
      ensures !MarkMatters(spots[k], cfg.opts, cfg.table)
    {
      assert Explains(spots[k], events[k], args, plain.opts, plain);
      if spots[k].OptionAt? && !IsLong(spots[k].element, cfg.table) {
        var element, text := spots[k].element, spots[k].text;
        var i := |args| - 1 - |spots[k].following|;
        assert args[i] == args[i..][0] == element;
        assert text[0] == element[|element| - |text|] == element[1..][|element| - |text| - 1];
        MarkSeenLater(cfg.opts, text[0]);
      }
    }
  }

  /** The mark's letter is read, and not refused with the mark and without it alike. */
  ghost predicate ReadsMark(spot: Spot, opts: string, table: Option<seq<LongOption>>) {
    && spot.OptionAt? && spot.text != "" && !IsLong(spot.element, table) && spot.text[0] == CharAt(opts, 0)
    && !(CharAt(opts, 1) == ':' && CharAt(opts, 2) != ':' && |spot.text| == 1 && spot.following == [])
  }

  /** An argument is missing, and a `:` stands behind the mark. */
  ghost predicate LosesSilence(spot: Spot, opts: string, table: Option<seq<LongOption>>) {
    && CharAt(opts, 1) == ':' && spot.OptionAt? && spot.text != ""
    && Decode(spot.element, spot.text, spot.following, Stripped(opts), table).event.missing
  }

  lemma MattersUndeclared(spot: Spot, opts: string, table: Option<seq<LongOption>>)
    requires Marked(opts) && opts[0] !in opts[1..]
    ensures MarkMatters(spot, opts, table) <==> ReadsMark(spot, opts, table) || LosesSilence(spot, opts, table)
  {
    hide Decode;
    if spot.OptionAt? && spot.text != "" {
      MarkSeenLater(opts, spot.text[0]);
    }
  }

  /** If the mark is not declared again as a letter, it is harmless exactly when no answer after the first reads its
      letter, unless that is refused either way, or lacks an argument while a `:` stands behind the mark. */
  lemma HarmlessUndeclared(args: seq<string>, cfg: Config)
    requires Marked(cfg.opts) && cfg.opts[0] !in cfg.opts[1..]
    ensures var spots := Spots(args, Stripped(cfg.opts), Unmarked(cfg));
            MarkHarmless(args, cfg) <==>
              forall k :: 1 <= k < |spots| ==>
                !ReadsMark(spots[k], cfg.opts, cfg.table) && !LosesSilence(spots[k], cfg.opts, cfg.table)
  {
    hide Spots, MarkMatters, ReadsMark, LosesSilence;
    var spots := Spots(args, Stripped(cfg.opts), Unmarked(cfg));
    forall k | 1 <= k < |spots|
      ensures MarkMatters(spots[k], cfg.opts, cfg.table) ==>
                ReadsMark(spots[k], cfg.opts, cfg.table) || LosesSilence(spots[k], cfg.opts, cfg.table)
    {
      MattersUndeclared(spots[k], cfg.opts, cfg.table);
    }
    if MarkHarmless(args, cfg) {
      forall k | 1 <= k < |spots|
        ensures !ReadsMark(spots[k], cfg.opts, cfg.table) && !LosesSilence(spots[k], cfg.opts, cfg.table)
      {
        MattersUndeclared(spots[k], cfg.opts, cfg.table);
        assert !MarkMatters(spots[k], cfg.opts, cfg.table);
      }
    }
  }

  /** Two runs of `getopt` on the same vector, from fresh scanners: with `+` and characters `plain`, and with
      `plain` alone where POSIXLY_CORRECT is set. They answer the same exactly when the mark is harmless. */
  lemma RunsCompared(args: seq<string>, plain: string, posixlyCorrect: bool, table: Option<seq<LongOption>>)
    requires !Marked(plain)
    ensures var marked := "+" + plain;
            var cfg := Config(OrderingOf(marked, posixlyCorrect), marked, table);
            var q := Parse(args, Stripped(marked), cfg);
            var r := Parse(args, Stripped(plain), Config(OrderingOf(plain, true), plain, table));
            && (Answers(q.events) == Answers(r.events) <==> MarkHarmless(args, cfg))
            && (MarkHarmless(args, cfg) ==> q.options == r.options && q.operands == r.operands)
  {
    hide Parse, MarkHarmless, Answers;
    var marked := "+" + plain;
    assert marked[1..] == plain;
    MarkIsOnlyAMark(args, Config(OrderingOf(marked, posixlyCorrect), marked, table));
  }

  /** With `+`, a scan reports a prefix of what permuting reports with unmarked option characters: exactly when the
      mark is harmless. */
  lemma RequiringOrderMarked(args: seq<string>, cfg: Config)
    requires Marked(cfg.opts) && cfg.ordering == RequireOrder
    ensures var q, p := Parse(args, Stripped(cfg.opts), cfg), Read(args, Unmarked(cfg).(ordering := Permute));
            && (Answers(q.events) <= Answers(p.events) <==> MarkHarmless(args, cfg))
            && (MarkHarmless(args, cfg) ==> q.options <= p.options)
            && (MarkHarmless(args, cfg) && p.operands == [] ==>
                  Answers(q.events) == Answers(p.events) && q.options == p.options && q.operands == [])
  {
    hide Parse, Spots, Harmless, Answers, Observable;
    var plain := Unmarked(cfg);
    var q, r, p := Parse(args, plain.opts, cfg), Read(args, plain), Read(args, plain.(ordering := Permute));
    RequiringOrder(args, plain.opts, plain.(ordering := Permute));
    assert plain.(ordering := Permute).(ordering := RequireOrder) == plain;
    MarkIsOnlyAMark(args, cfg);
    var more := p.events[|r.events|..];
    assert p.events == r.events + more;
    AnswersOfBoth(r.events, more);
    if !MarkHarmless(args, cfg) {
      InLockstep(args, cfg);
      var sq, sr := Spots(args, plain.opts, cfg), Spots(args, plain.opts, plain);
      var k: nat :| PartAt(q, r, sq, sr, k);
      AnswerAt(q.events, k);
      AnswerAt(p.events, k);
    }
  }

  lemma {:induction false} AtOptionsAnswers(events: seq<Event>, spots: seq<Spot>)
    requires |events| == |spots|
    ensures |Answers(events)| == |events|
    ensures Answers(AtOptions(events, spots)) == AtOptions(Answers(events), spots)
    decreases |events|
  {
    hide Observable;
    if events != [] {
      AtOptionsAnswers(events[1..], spots[1..]);
      assert Answers(events)[1..] == Answers(events[1..]);
      AnswersOfBoth(if spots[0].OptionAt? then [events[0]] else [], AtOptions(events[1..], spots[1..]));
    }
  }

  lemma {:induction false} AtOptionsDiffer(a: seq<Event>, b: seq<Event>, sa: seq<Spot>, sb: seq<Spot>, k: nat)
    requires |a| == |sa| && |b| == |sb| && k < |a| && k < |b|
    requires a[..k] == b[..k] && sa[..k + 1] == sb[..k + 1] && sb[k].OptionAt? && a[k] != b[k]
    ensures AtOptions(a, sa) != AtOptions(b, sb)
    decreases k
  {
    assert sa[..k + 1][k] == sb[..k + 1][k] && sa[..k + 1][0] == sb[..k + 1][0];
    if k == 0 {
      assert AtOptions(a, sa)[0] == a[0] && AtOptions(b, sb)[0] == b[0];
    } else {
      assert a[0] == a[..k][0] == b[..k][0] == b[0];
      assert a[1..][..k - 1] == a[..k][1..] == b[..k][1..] == b[1..][..k - 1];
      assert sa[1..][..k] == sa[..k + 1][1..] == sb[..k + 1][1..] == sb[1..][..k];
      AtOptionsDiffer(a[1..], b[1..], sa[1..], sb[1..], k - 1);
      var first := if sa[0].OptionAt? then [a[0]] else [];
      assert AtOptions(a, sa)[|first|..] == AtOptions(a[1..], sa[1..]);
      assert AtOptions(b, sb)[|first|..] == AtOptions(b[1..], sb[1..]);
    }
  }

  /** With `-`, the options of a scan say what they say when permuting with unmarked option characters: exactly
      when the mark is harmless. The operands told and left over are then those that permuting collects. */
  lemma InOrderMarked(args: seq<string>, cfg: Config)
    requires Marked(cfg.opts) && cfg.ordering == ReturnInOrder
    ensures var q, p := Parse(args, Stripped(cfg.opts), cfg), Read(args, Unmarked(cfg).(ordering := Permute));
            var spots := Spots(args, Stripped(cfg.opts), cfg);
            && |q.events| == |Answers(q.events)| == |spots|
            && (AtOptions(Answers(q.events), spots) == Answers(p.events) <==> MarkHarmless(args, cfg))
            && (MarkHarmless(args, cfg) ==> ToldIn(spots) + q.operands == p.operands && q.terminated == p.terminated)
  {
    hide Parse, Spots, Harmless, Answers, Observable, AtOptions, ToldIn, Own;
    var plain := Unmarked(cfg);
    var q, r := Parse(args, plain.opts, cfg), Read(args, plain);
    var sq, sr := Spots(args, plain.opts, cfg), Spots(args, plain.opts, plain);
    InOrderIsPermuting(args, plain.(ordering := Permute));
    assert plain.(ordering := Permute).(ordering := ReturnInOrder) == plain;
    SpotsAligned(args, plain.opts, cfg);
    AtOptionsAnswers(q.events, sq);
    AtOptionsAnswers(r.events, sr);
    InLockstep(args, cfg);
    if !MarkHarmless(args, cfg) {
      var k: nat :| PartAt(q, r, sq, sr, k);
      AnswerAt(q.events, k);
      AnswerAt(r.events, k);
      AtOptionsDiffer(Answers(q.events), Answers(r.events), sq, sr, k);
    }
  }

  /** An option that takes an argument without the mark is not refused with it. */
  lemma TakenNotRefused(spot: Spot, opts: string, table: Option<seq<LongOption>>)
    requires Marked(opts) && spot.OptionAt? && spot.text != ""
    requires var d := Decode(spot.element, spot.text, spot.following, Stripped(opts), table).event;
             d.optarg.Some? && d.optopt.None?
    ensures Decode(spot.element, spot.text, spot.following, opts, table).event.optopt.None?
  {
    hide Resolve, NameEnd, KindOf, DecodeShort;
    if !IsLong(spot.element, table) {
      MarkSeenLater(opts, spot.text[0]);
      ShortByKind(spot.text, spot.following, opts);
      ShortByKind(spot.text, spot.following, Stripped(opts));
    }
  }

  lemma FedAndMarked(args: seq<string>, cfg: Config, p: Parsed, x: string)
    requires Marked(cfg.opts) && FedLast(p.events, Read(args, Unmarked(cfg)).events, x)
    ensures Answers(Parse(args, Stripped(cfg.opts), cfg).events) != Answers(p.events)
  {
    hide Parse, Spots, Harmless, Answers, Decode;
    var plain := Unmarked(cfg);
    var q, r := Parse(args, plain.opts, cfg), Read(args, plain);
    var sq, sr := Spots(args, plain.opts, cfg), Spots(args, plain.opts, plain);
    InLockstep(args, cfg);
    var n: nat := |p.events| - 1;
    AnswerAt(p.events, n);
    AnswerAt(r.events, n);
    if !MarkHarmless(args, cfg) {
      var k: nat :| PartAt(q, r, sq, sr, k);
      AnswerAt(q.events, k);
      AnswerAt(r.events, k);
      AnswersLength(q.events);
      if k < n {
        AnswerAt(p.events, k);
        assert Answers(r.events)[..n][k] == Answers(p.events)[..n][k];
      } else if k > n {
        assert Answers(q.events)[..k][n] == Answers(r.events)[..k][n];
      } else {
        SpotsExplain(args, plain.opts, cfg);
        SpotsExplain(args, plain.opts, plain);
        assert sq[..k + 1][k] == sr[..k + 1][k];
        assert Explains(sr[k], r.events[k], args, plain.opts, plain);
        assert Explains(sq[k], q.events[k], args, if k == 0 then plain.opts else cfg.opts, cfg);
        TakenNotRefused(sr[k], cfg.opts, cfg.table);
      }
    }
  }

  /** Scanning the permuted vector again, with a mark that requires order: the answers are the same exactly when
      no operand could fill the gap of a missing argument and the mark is harmless. */
  lemma ReplayMarked(args: seq<string>, cfg: Config)
    requires Marked(cfg.opts) && cfg.ordering == RequireOrder
    ensures var p := Read(args, Unmarked(cfg).(ordering := Permute));
            var permuted := p.options + p.operands;
            Answers(Parse(permuted, Stripped(cfg.opts), cfg).events) == Answers(p.events)
            <==> (!Starved(p.events) || p.operands == []) && MarkHarmless(permuted, cfg)
  {
    hide Parse, MarkHarmless, Answers, FedLast, Starved;
    var plain := Unmarked(cfg);
    var p := Read(args, plain.(ordering := Permute));
    var permuted := p.options + p.operands;
    Replay(args, plain.(ordering := Permute), plain);
    MarkIsOnlyAMark(permuted, cfg);
    if Starved(p.events) && p.operands != [] {
      FedAndMarked(permuted, cfg, p, p.operands[0]);
    }
  }

  /** With a mark, reading what was written recovers what was meant: exactly when the mark is harmless. */
  lemma MarkedReadingRecovers(ms: seq<Intent>, end: Option<seq<string>>, cfg: Config)
    requires Marked(cfg.opts) && AllWellFormed(ms, Unmarked(cfg))
    ensures Recovers(Parse(Written(ms, end), Stripped(cfg.opts), cfg), Intended(ms, end, Unmarked(cfg)))
            <==> MarkHarmless(Written(ms, end), cfg)
  {
    hide Parse, MarkHarmless, Answers, Written, Intended, AllWellFormed;
    ReadingRecoversMeaning(ms, end, Unmarked(cfg));
    MarkIsOnlyAMark(Written(ms, end), cfg);
  }

  lemma LettersRead()
    ensures DecodeShort("a", ["-+"], "a") == Decoded(Event('a' as int, None, None, None, None, 1, false), "", 0)
    ensures DecodeShort("+", [], "+a") == Decoded(Event('+' as int, None, None, None, None, 0, false), "", 0)
    ensures DecodeShort("+", [], "a")
            == Decoded(Event('?' as int, None, None, Some('+' as int), None, 0, false), "", 0)
  {
    hide Resolve;
    assert IndexOf("+a", '+') == Some(0) && IndexOf("a", 'a') == Some(0) && IndexOf("a", '+') == None;
  }

  /** `-a -+` with `+a`: the second call takes the mark for an option. */
  lemma MarkTaken()
    ensures var args, cfg := ["-a", "-+"], Config(RequireOrder, "+a", None);
            && Answers(Parse(args, Stripped(cfg.opts), cfg).events) == [Letter('a', None), Letter('+', None)]
            && Answers(Read(args, Unmarked(cfg)).events)
               == [Letter('a', None), Letter('+', None).(code := '?' as int, optopt := Some('+' as int))]
  {
    hide DecodeShort, Parse;
    var cfg := Config(RequireOrder, "+a", None);
    LettersRead();
    assert ["-a"] + ["-+"] == ["-a", "-+"] && ["-+"] + [] == ["-+"];
    assert "-a"[1..] == "a" && "-+"[1..] == "+";
    OneLetter("-a", ["-+"], "a", cfg);
    OneLetter("-a", ["-+"], "a", Unmarked(cfg));
    OneLetter("-+", [], "+a", cfg);
    OneLetter("-+", [], "a", Unmarked(cfg));
    ParseAtEnd([], "+a", cfg);
    ParseAtEnd([], "a", Unmarked(cfg));
  }

  lemma LetterLacking()
    ensures var d, e := DecodeShort("a", [], "-:a:"), DecodeShort("a", [], ":a:");
            && d.rest == "" && d.used == 0 && d.event.code == '?' as int
            && e.rest == "" && e.used == 0 && e.event.code == ':' as int
  {
    assert IndexOf("-:a:", 'a') == Some(2) by { IndexIs("-:a:", 'a', 2); }
    assert IndexOf(":a:", 'a') == Some(1) by { IndexIs(":a:", 'a', 1); }
  }

  /** `x -a` with `-:a:`: the second call does not see the `:` behind the mark as the first character. */
  lemma SilenceLost()
    ensures var args, cfg := ["x", "-a"], Config(ReturnInOrder, "-:a:", None);
            var q, p := Parse(args, Stripped(cfg.opts), cfg), Read(args, Unmarked(cfg).(ordering := Permute));
            && |q.events| == 2 && q.events[0].code == 1 && q.events[1].code == '?' as int
            && |p.events| == 1 && p.events[0].code == ':' as int
  {
    hide DecodeShort, IndexOf;
    var cfg := Config(ReturnInOrder, "-:a:", None);
    var plain := Unmarked(cfg).(ordering := Permute);
    LetterLacking();
    assert "-a"[1..] == "a" && ["x", "-a"][1..] == ["-a"] + [];
    OneLetter("-a", [], "-:a:", cfg);
    OneLetter("-a", [], ":a:", plain);
    ParseAtEnd([], "-:a:", cfg);
    ParseAtEnd([], ":a:", plain);
  }
}
