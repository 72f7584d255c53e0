/** Properties of the reference reading: it is bounded, it partitions the elements stably, and the orderings agree
    on what the options are. Also, what of an answer and of the elements around it matters. */
module Readings {
  import opened Options
  import opened LongOptions
  import opened CommandLine
  import opened Strings

  ghost function Read(args: seq<string>, cfg: Config): Parsed {
    Parse(args, cfg.opts, cfg)
  }

  /** The characters of `args`, each with its terminating NUL. */
  ghost function Weight(args: seq<string>): nat {
    if args == [] then 0 else |args[0]| + 1 + Weight(args[1..])
  }

  lemma {:induction false} WeightOfSuffix(args: seq<string>, k: nat)
    requires k <= |args|
    ensures Weight(args[k..]) <= Weight(args)
  {
    if k > 0 {
      assert args[k..] == args[1..][k - 1..];
      WeightOfSuffix(args[1..], k - 1);
    } else {
      assert args[0..] == args;
    }
  }

  lemma {:induction false} ElementBounded(element: string, text: string, following: seq<string>, opts: string,
                                          cfg: Config)
    requires text != ""
    ensures |ReadElement(element, text, following, opts, cfg).events| <= |text|
    decreases |text|
  {
    hide DecodeShort, DecodeLong;
    var d := Decode(element, text, following, opts, cfg.table);
    if d.rest != "" {
      ElementBounded(element, d.rest, following, cfg.opts, cfg);
    }
  }

  /** A caller's loop ends after at most as many answers as there are bytes in the vector. */
  lemma {:induction false} AnswersBounded(args: seq<string>, opts: string, cfg: Config)
    ensures |Parse(args, opts, cfg).events| <= Weight(args)
    decreases |args|
  {
    hide DecodeShort, DecodeLong, Decode, ReadElement;
    if args == [] || args[0] == TERMINATOR {
    } else if IsOperand(args[0]) {
      AnswersBounded(args[1..], opts, cfg);
      AnswersBounded(args[1..], cfg.opts, cfg);
    } else {
      var text := OptionText(args[0], cfg.table);
      var own := ReadElement(args[0], text, args[1..], opts, cfg);
      ElementBounded(args[0], text, args[1..], opts, cfg);
      AnswersBounded(args[1..][own.used..], cfg.opts, cfg);
      WeightOfSuffix(args[1..], own.used);
    }
  }

  /** Which elements are operands: those that do not begin with `-`, and `-` alone. */
  lemma OperandSyntax(arg: string)
    ensures IsOperand(arg) <==> arg == "" || arg[0] != '-' || |arg| == 1 || arg[1] == '\0'
  {
  }

  /** A vector of nothing but words is left as it is, with nothing to report unless operands are returned. */
  lemma {:induction false} OnlyWords(args: seq<string>, opts: string, cfg: Config)
    requires forall i :: 0 <= i < |args| ==> args[i] == "" || args[i][0] != '-' || args[i] == "-"
    ensures cfg.ordering != ReturnInOrder ==> Parse(args, opts, cfg) == Parsed([], [], args, false)
    ensures cfg.ordering == ReturnInOrder ==>
              var p := Parse(args, opts, cfg);
              && |p.events| == |args| && p.options == args && p.operands == [] && !p.terminated
              && forall k :: 0 <= k < |args| ==>
                   p.events[k] == Event(1, Some(args[k]), None, None, None, |args| - 1 - k, false)
    decreases |args|
  {
    hide DecodeShort, DecodeLong, Decode, ReadElement;
    if args != [] {
      OperandSyntax(args[0]);
      OnlyWords(args[1..], opts, cfg);
      OnlyWords(args[1..], cfg.opts, cfg);
      assert args == [args[0]] + args[1..];
      if cfg.ordering == RequireOrder {
        ParseAtEnd(args, opts, cfg);
      }
    }
  }

  /** `xs` is an interleaving of `ys` and `zs`: together they hold its elements, each in the order of `xs`. */
  ghost predicate Merges<T(!new)>(xs: seq<T>, ys: seq<T>, zs: seq<T>) {
    if xs == [] then ys == [] && zs == []
    else
      || (ys != [] && ys[0] == xs[0] && Merges(xs[1..], ys[1..], zs))
      || (zs != [] && zs[0] == xs[0] && Merges(xs[1..], ys, zs[1..]))
  }

  lemma {:induction false} MergesPrefix<T(!new)>(p: seq<T>, xs: seq<T>, ys: seq<T>, zs: seq<T>)
    requires Merges(xs, ys, zs)
    ensures Merges(p + xs, p + ys, zs)
  {
    if p == [] {
      assert p + xs == xs && p + ys == ys;
    } else {
      MergesPrefix(p[1..], xs, ys, zs);
      assert (p + xs)[1..] == p[1..] + xs && (p + ys)[1..] == p[1..] + ys;
    }
  }

  lemma {:induction false} MergesAll<T(!new)>(xs: seq<T>)
    ensures Merges(xs, [], xs)
  {
    if xs != [] {
      MergesAll(xs[1..]);
    }
  }

  /** Options and operands are a stable partition of the elements. */
  lemma {:induction false} StablePartition(args: seq<string>, opts: string, cfg: Config)
    ensures var p := Parse(args, opts, cfg); Merges(args, p.options, p.operands)
    decreases |args|
  {
    hide DecodeShort, DecodeLong, Decode, ReadElement;
    if args == [] {
    } else if args[0] == TERMINATOR {
      ParseAtTerminator(args, opts, cfg);
      MergesAll(args[1..]);
      MergesPrefix([TERMINATOR], args[1..], [], args[1..]);
      assert args == [TERMINATOR] + args[1..] && [TERMINATOR] == [TERMINATOR] + [];
    } else if !IsOperand(args[0]) {
      var k := Front(args, opts, cfg).used;
      ParseFront(args, opts, cfg);
      var q := Parse(args[k..], cfg.opts, cfg);
      StablePartition(args[k..], cfg.opts, cfg);
      MergesPrefix(args[..k], args[k..], q.options, q.operands);
      assert args == args[..k] + args[k..];
    } else if cfg.ordering == RequireOrder {
      MergesAll(args);
    } else {
      var opts' := if cfg.ordering == Permute then opts else cfg.opts;
      var q := Parse(args[1..], opts', cfg);
      StablePartition(args[1..], opts', cfg);
      MergesPrefix([args[0]], args[1..], q.options, q.operands);
      MergesSwap(args[1..], q.options, q.operands);
      MergesPrefix([args[0]], args[1..], q.operands, q.options);
      assert args == [args[0]] + args[1..];
      MergesSwap(args, [args[0]] + q.operands, q.options);
    }
  }

  /** Only operands in front of options move, and only when permuting. */
  lemma {:induction false} NothingMoves(args: seq<string>, opts: string, cfg: Config)
    ensures var p := Parse(args, opts, cfg);
            cfg.ordering != Permute || p.operands == [] ==> p.options + p.operands == args
    decreases |args|
  {
    hide DecodeShort, DecodeLong, Decode, ReadElement;
    if args == [] {
    } else if args[0] == TERMINATOR {
      ParseAtTerminator(args, opts, cfg);
    } else if !IsOperand(args[0]) {
      var k := Front(args, opts, cfg).used;
      ParseFront(args, opts, cfg);
      NothingMoves(args[k..], cfg.opts, cfg);
      var q := Parse(args[k..], cfg.opts, cfg);
      assert args == args[..k] + args[k..];
      assert args[..k] + q.options + q.operands == args[..k] + (q.options + q.operands);
    } else if cfg.ordering == ReturnInOrder {
      NothingMoves(args[1..], cfg.opts, cfg);
    }
  }

  /** Requiring order reports a prefix of what permuting reports, and the same when there are no operands. */
  lemma {:induction false} RequiringOrder(args: seq<string>, opts: string, cfg: Config)
    requires cfg.ordering == Permute
    ensures var p, q := Parse(args, opts, cfg), Parse(args, opts, cfg.(ordering := RequireOrder));
            q.events <= p.events && q.options <= p.options && (p.operands == [] ==> q == p)
    decreases |args|
  {
    hide DecodeShort, DecodeLong, Decode, ReadElement;
    var cfg' := cfg.(ordering := RequireOrder);
    if args != [] && args[0] != TERMINATOR && !IsOperand(args[0]) {
      var k := Front(args, opts, cfg).used;
      ElementIgnoresOrdering(args[0], OptionText(args[0], cfg.table), args[1..], opts, cfg, cfg');
      ParseFront(args, opts, cfg);
      ParseFront(args, opts, cfg');
      RequiringOrder(args[k..], cfg.opts, cfg);
    }
  }

  lemma {:induction false} ElementIgnoresOrdering(element: string, text: string, following: seq<string>, opts: string,
                                                  cfg: Config, cfg': Config)
    requires text != "" && cfg' == cfg.(ordering := cfg'.ordering)
    ensures ReadElement(element, text, following, opts, cfg) == ReadElement(element, text, following, opts, cfg')
    decreases |text|
  {
    hide DecodeShort, DecodeLong;
    var d := Decode(element, text, following, opts, cfg.table);
    if d.rest != "" {
      ElementIgnoresOrdering(element, d.rest, following, cfg.opts, cfg, cfg');
    }
  }

  lemma {:induction false} MergesSwap<T(!new)>(xs: seq<T>, ys: seq<T>, zs: seq<T>)
    requires Merges(xs, ys, zs)
    ensures Merges(xs, zs, ys)
  {
    if xs != [] {
      if ys != [] && ys[0] == xs[0] && Merges(xs[1..], ys[1..], zs) {
        MergesSwap(xs[1..], ys[1..], zs);
      } else {
        MergesSwap(xs[1..], ys, zs[1..]);
      }
    }
  }

  /** What a caller sees of an answer, apart from the position of the scan. */
  function Observable(e: Event): Event {
    e.(left := 0, missing := false)
  }

  function Answers(events: seq<Event>): seq<Event> {
    seq(|events|, i requires 0 <= i < |events| => Observable(events[i]))
  }

  lemma AnswersOfBoth(a: seq<Event>, b: seq<Event>)
    ensures Answers(a + b) == Answers(a) + Answers(b)
  {
  }

  /** Some option had no argument left to take. */
  ghost predicate Starved(events: seq<Event>) {
    exists i :: 0 <= i < |events| && events[i].missing
  }

  /** An option is read in the same way wherever the argument it uses is in place. */
  lemma DecodeDepends(element: string, text: string, following: seq<string>, other: seq<string>, opts: string,
                      table: Option<seq<LongOption>>)
    requires text != ""
    requires var d := Decode(element, text, following, opts, table);
             !d.event.missing && d.used <= |other| && following[..d.used] == other[..d.used]
    ensures var d, d' := Decode(element, text, following, opts, table), Decode(element, text, other, opts, table);
            Observable(d'.event) == Observable(d.event) && !d'.event.missing && d'.rest == d.rest && d'.used == d.used
  {
    hide Resolve, IndexOf;
    var d := Decode(element, text, following, opts, table);
    if d.used > 0 {
      assert following[..d.used][0] == other[..d.used][0];
    }
  }

  lemma {:induction false} ElementDepends(element: string, text: string, following: seq<string>, other: seq<string>,
                                          opts: string, cfg: Config)
    requires text != ""
    requires var r := ReadElement(element, text, following, opts, cfg);
             !Starved(r.events) && r.used <= |other| && following[..r.used] == other[..r.used]
    ensures var r := ReadElement(element, text, following, opts, cfg);
            var r' := ReadElement(element, text, other, opts, cfg);
            Answers(r'.events) == Answers(r.events) && !Starved(r'.events) && r'.used == r.used
    decreases |text|
  {
    hide Decode;
    var d := Decode(element, text, following, opts, cfg.table);
    var r := ReadElement(element, text, following, opts, cfg);
    assert r.events[0] == d.event;
    if d.rest == "" {
      DecodeDepends(element, text, following, other, opts, cfg.table);
    } else {
      var s := ReadElement(element, d.rest, following, cfg.opts, cfg);
      assert forall i :: 0 <= i < |s.events| ==> r.events[i + 1] == s.events[i];
      DecodeDepends(element, text, following, other, opts, cfg.table);
      ElementDepends(element, d.rest, following, other, cfg.opts, cfg);
      var d' := Decode(element, text, other, opts, cfg.table);
      var s' := ReadElement(element, d.rest, other, cfg.opts, cfg);
      AnswersOfBoth([d.event], s.events);
      AnswersOfBoth([d'.event], s'.events);
    }
  }
}
