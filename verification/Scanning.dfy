/** The state of the resumable, permuting scanner of src/getopt.c as a value, its invariant, and the outlook that
    every step of the scanner keeps or shortens by one answer. */
module Scanning {
  import opened Options
  import opened CommandLine
  import opened Permutation

  /** The scanner's state as a value: the vector and the static variables of src/getopt.c. */
  datatype Scan = Scan(argv: seq<string>, optind: nat, nextchar: string, first: nat, last: nat, ordering: Ordering) {

    /** `first_nonopt` and `last_nonopt` after the clamp at src/getopt.c:549-552. */
    function First(): nat { if first > optind then optind else first }

    function Last(): nat { if last > optind then optind else last }

    /** The index of the element scanned last. */
    function Current(): int { if nextchar == "" then optind - 1 else optind }

    ghost predicate InRange() {
      && 1 <= optind <= |argv|
      && 1 <= first <= last
    }

    /** The option elements scanned so far: those before the skipped operands and those after them. */
    ghost function Taken(): seq<string>
      requires InRange()
    {
      argv[..First()] + argv[Last()..optind]
    }

    /** The operands passed over so far. */
    ghost function Skipped(): seq<string>
      requires InRange()
    {
      argv[First()..Last()]
    }

    /** What holds between any two calls. */
    ghost predicate Valid() {
      && InRange()
      && (forall k :: First() <= k < Last() ==> IsOperand(argv[k]))
      && (ordering != Permute ==> First() == Last())
      && (nextchar != "" ==>
            && optind < |argv|
            && !IsOperand(argv[optind])
            && last <= optind
            && |nextchar| < |argv[optind]|
            && nextchar == argv[optind][|argv[optind]| - |nextchar|..])
    }

    /** The reading of everything not yet scanned. */
    ghost function Rest(opts: string, cfg: Config): Parsed
      requires Valid()
    {
      if nextchar == "" then Parse(argv[optind..], opts, cfg)
      else ParseElement(argv[optind], nextchar, argv[optind + 1..], opts, cfg)
    }

    /** The reading of the whole vector, of which the answers already given are gone. */
    ghost function Outlook(opts: string, cfg: Config): Parsed
      requires Valid()
    {
      Rest(opts, cfg).Behind(Taken()).Passing(Skipped())
    }
  }

  /** Nothing is left to report, and the vector is partitioned with the scan at its first operand. */
  ghost predicate Ended(s: Scan, p: Parsed) {
    && p.events == []
    && s.argv == p.options + p.operands
    && s.optind == |p.options|
    && s.Valid() && s.nextchar == ""
  }

  /** What a caller reads after a call. */
  datatype Reply = Reply(code: int, optarg: Option<string>, optind: nat)

  ghost predicate Predicted(p: Parsed, replies: seq<Reply>, argc: nat) {
    && |replies| <= |p.events|
    && forall k :: 0 <= k < |replies| ==>
         && replies[k].code == p.events[k].code != -1
         && replies[k].optarg == p.events[k].optarg
         && replies[k].optind == argc - p.events[k].left
  }

  /** A caller's loop that stops at -1 has received every answer and the final order, unless an option of its
      own has the value -1. */
  ghost predicate Completed(p: Parsed, replies: seq<Reply>, s: Scan) {
    && Predicted(p, replies, |s.argv|)
    && if |replies| == |p.events| then Ended(s, p.(events := [])) else p.events[|replies|].code == -1
  }

  /** The loop has completed the reading of the arguments of `argv`, of which the first call sees `opts`. */
  ghost predicate CompletedFresh(argv: seq<string>, opts: string, cfg: Config, replies: seq<Reply>, s: Scan)
    requires argv != []
  {
    Completed(Parse(argv[1..], opts, cfg).Behind([argv[0]]), replies, s)
  }

  lemma InRangeAfter(s: Scan)
    requires s.Valid()
    ensures s.InRange()
  {
  }

  /** From outlook `p` the scanner has given its first answer and come to state `s`. */
  ghost predicate Answered(s0: Scan, s: Scan, p: Parsed, cfg: Config) {
    && p.events != []
    && s.Valid() && s.last <= s.optind
    && (p.events[0].optarg.Some? ==> s.nextchar == "")
    && s.ordering == s0.ordering
    && |s.argv| == |s0.argv|
    && s.optind == |s.argv| - p.events[0].left
    && s0.optind <= s.Current()
    && s.argv[s.Current()..] == s0.argv[s.Current()..]
    && s.Outlook(cfg.opts, cfg) == p.(events := p.events[1..])
  }

  /** A scan that starts at element 1 has the reading of the arguments in front of it. */
  lemma FreshOutlook(argv: seq<string>, opts: string, cfg: Config)
    requires argv != []
    ensures var s := Scan(argv, 1, "", 1, 1, cfg.ordering);
            s.Valid() && s.Outlook(opts, cfg) == Parse(argv[1..], opts, cfg).Behind([argv[0]])
  {
    hide Parse;
    var s := Scan(argv, 1, "", 1, 1, cfg.ordering);
    assert s.Taken() == [argv[0]] && s.Skipped() == [];
  }

  /** Exchanging keeps both the option elements and the operands in order. */
  lemma ExchangeKeepsOrder(s: Scan, s': Scan)
    requires s.InRange() && s.last <= s.optind
    requires s'.argv == Rotated(s.argv, s.first, s.last, s.optind)
    requires s'.optind == s.optind == s'.last && s'.first == s.first + (s.optind - s.last)
    ensures s'.InRange() && s'.Taken() == s.Taken() && s'.Skipped() == s.Skipped()
    ensures s'.argv[s.optind..] == s.argv[s.optind..]
  {
    var taken, skipped := s.Taken(), s.Skipped();
    assert s'.argv == taken + skipped + s.argv[s.optind..];
    assert |taken| == s'.first && |taken| + |skipped| == s.optind;
  }

  /** Reading an option from inside a cluster leaves the rest of the outlook as it was. */
  lemma ClusterContinues(s: Scan, opts: string, cfg: Config)
    requires s.Valid() && s.nextchar != ""
    requires Decode(s.argv[s.optind], s.nextchar, s.argv[s.optind + 1..], opts, cfg.table).rest != ""
    ensures var d := Decode(s.argv[s.optind], s.nextchar, s.argv[s.optind + 1..], opts, cfg.table);
            var p := s.Outlook(opts, cfg);
            Answered(s, s.(nextchar := d.rest), p, cfg) && p.events[0] == d.event
  {
    hide DecodeShort, DecodeLong, ParseElement;
    ElementContinues(s.argv[s.optind], s.nextchar, s.argv[s.optind + 1..], opts, cfg);
  }

  /** Passing an element and the arguments it used moves them from the unread to the taken part. */
  lemma ElementPassed(s: Scan, used: nat, q: Parsed)
    requires s.Valid() && s.optind < |s.argv| && s.last <= s.optind && s.optind + 1 + used <= |s.argv|
    ensures var s' := s.(nextchar := "", optind := s.optind + 1 + used);
            var own := [s.argv[s.optind]] + s.argv[s.optind + 1..][..used];
            && s'.Valid()
            && s.argv[s.optind + 1..][used..] == s.argv[s'.optind..]
            && q.Behind(s'.Taken()).Passing(s'.Skipped()) == q.Behind(own).Behind(s.Taken()).Passing(s.Skipped())
  {
    var s' := s.(nextchar := "", optind := s.optind + 1 + used);
    var own := [s.argv[s.optind]] + s.argv[s.optind + 1..][..used];
    assert s.argv[s.last..s'.optind] == s.argv[s.last..s.optind] + own;
    assert s'.Taken() == s.Taken() + own;
    assert s'.Taken() + q.options == s.Taken() + (own + q.options);
  }

  /** Reading the last option of an element passes the element and the argument it used. */
  lemma ElementFinished(s: Scan, opts: string, cfg: Config)
    requires s.Valid() && s.nextchar != ""
    requires Decode(s.argv[s.optind], s.nextchar, s.argv[s.optind + 1..], opts, cfg.table).rest == ""
    ensures var d := Decode(s.argv[s.optind], s.nextchar, s.argv[s.optind + 1..], opts, cfg.table);
            var p := s.Outlook(opts, cfg);
            Answered(s, s.(nextchar := "", optind := s.optind + 1 + d.used), p, cfg) && p.events[0] == d.event
  {
    hide DecodeShort, DecodeLong, Parse, ParseElement;
    var following := s.argv[s.optind + 1..];
    var d := Decode(s.argv[s.optind], s.nextchar, following, opts, cfg.table);
    var s' := s.(nextchar := "", optind := s.optind + 1 + d.used);
    var q := Parse(following[d.used..], cfg.opts, cfg);
    ElementPassed(s, d.used, q);
    ElementEnds(s.argv[s.optind], s.nextchar, following, opts, cfg);
    assert s'.Rest(cfg.opts, cfg) == q;
  }

  lemma OptionRead(s: Scan, s': Scan, opts: string, cfg: Config)
    requires s.Valid() && s.nextchar != ""
    requires var d := Decode(s.argv[s.optind], s.nextchar, s.argv[s.optind + 1..], opts, cfg.table);
             s' == s.(nextchar := d.rest, optind := s.optind + if d.rest == "" then 1 + d.used else 0)
    ensures var p := s.Outlook(opts, cfg);
            && Answered(s, s', p, cfg)
            && p.events[0] == Decode(s.argv[s.optind], s.nextchar, s.argv[s.optind + 1..], opts, cfg.table).event
  {
    hide DecodeShort, DecodeLong, Scan.Outlook, Answered;
    if Decode(s.argv[s.optind], s.nextchar, s.argv[s.optind + 1..], opts, cfg.table).rest == "" {
      ElementFinished(s, opts, cfg);
    } else {
      ClusterContinues(s, opts, cfg);
    }
  }

  /** Passing one more operand moves it from the unread to the skipped part. */
  lemma OperandSkipped(s: Scan, opts: string, cfg: Config)
    requires s.Valid() && s.nextchar == "" && s.ordering == cfg.ordering == Permute
    requires s.last == s.optind < |s.argv| && IsOperand(s.argv[s.optind])
    ensures var s' := s.(optind := s.optind + 1, last := s.optind + 1);
            s'.Valid() && s'.Outlook(opts, cfg) == s.Outlook(opts, cfg)
  {
    hide ParseElement;
    var s' := s.(optind := s.optind + 1, last := s.optind + 1);
    var q := Parse(s.argv[s'.optind..], opts, cfg);
    assert s.argv[s.optind..][1..] == s.argv[s'.optind..];
    assert s.Rest(opts, cfg) == q.Passing([s.argv[s.optind]]);
    assert s'.Skipped() == s.Skipped() + [s.argv[s.optind]];
    assert s'.Skipped() + q.operands == s.Skipped() + ([s.argv[s.optind]] + q.operands);
  }

  lemma {:induction false} OperandsSkipped(s: Scan, end: nat, opts: string, cfg: Config)
    requires s.Valid() && s.nextchar == "" && s.ordering == cfg.ordering == Permute
    requires s.last == s.optind <= end <= |s.argv|
    requires forall k :: s.optind <= k < end ==> IsOperand(s.argv[k])
    ensures var s' := s.(optind := end, last := end);
            s'.Valid() && s'.Outlook(opts, cfg) == s.Outlook(opts, cfg)
    decreases end - s.optind
  {
    if s.optind < end {
      OperandSkipped(s, opts, cfg);
      OperandsSkipped(s.(optind := s.optind + 1, last := s.optind + 1), end, opts, cfg);
    }
  }

  lemma NothingSkipped(s: Scan)
    requires s.InRange() && s.First() == s.Last()
    ensures s.Taken() == s.argv[..s.optind] && s.Skipped() == []
  {
  }

  /** In return-in-order mode an operand is an answer of its own. */
  lemma OperandReturned(s: Scan, opts: string, cfg: Config)
    requires s.Valid() && s.nextchar == "" && s.ordering == cfg.ordering == ReturnInOrder
    requires s.last <= s.optind < |s.argv| && s.argv[s.optind] != TERMINATOR && IsOperand(s.argv[s.optind])
    ensures var p := s.Outlook(opts, cfg);
            && Answered(s, s.(optind := s.optind + 1), p, cfg)
            && p.events[0] == Event(1, Some(s.argv[s.optind]), None, None, None, |s.argv| - s.optind - 1, false)
  {
    var s' := s.(optind := s.optind + 1);
    var q := Parse(s'.argv[s'.optind..], cfg.opts, cfg);
    assert s.argv[s.optind..][1..] == s'.argv[s'.optind..];
    NothingSkipped(s);
    NothingSkipped(s');
    assert s'.Taken() == s.Taken() + [s.argv[s.optind]];
    assert s'.Taken() + q.options == s.Taken() + ([s.argv[s.optind]] + q.options);
  }

  /** From state `s0` with outlook `p` the scanner has advanced to `s`: it has given the answer `r`, or come
      to an option element (`None`). */
  ghost predicate Advanced(s0: Scan, s: Scan, p: Parsed, r: Option<int>, optarg: Option<string>, opts: string,
                           cfg: Config) {
    if r.None? then
      && s.Valid() && s.nextchar != "" && optarg == None
      && s.ordering == s0.ordering && |s.argv| == |s0.argv|
      && s.Outlook(opts, cfg) == p
      && s0.optind <= s.optind && s.argv[s.optind..] == s0.argv[s.optind..]
    else if p.events == [] then
      r.value == -1 && Ended(s, p) && optarg == None
    else
      && r.value == 1 && Answered(s0, s, p, cfg)
      && p.events[0] == Event(1, optarg, None, None, None, |s.argv| - s.optind, false)
  }

  /** What happened to the scanned part in the meantime does not matter to an answer. */
  lemma AnsweredEarlier(s0: Scan, s: Scan, s': Scan, p: Parsed, cfg: Config)
    requires Answered(s, s', p, cfg)
    requires s0.optind <= s.optind && |s0.argv| == |s.argv| && s0.ordering == s.ordering
    requires s.optind <= |s.argv| && s.argv[s.optind..] == s0.argv[s.optind..]
    ensures Answered(s0, s', p, cfg)
  {
    var k := s'.Current() - s.optind;
    assert s'.argv[s'.Current()..] == s.argv[s.optind..][k..];
  }

  lemma AdvancedEarlier(s0: Scan, s: Scan, s': Scan, p: Parsed, r: Option<int>, optarg: Option<string>,
                        opts: string, cfg: Config)
    requires Advanced(s, s', p, r, optarg, opts, cfg)
    requires s0.optind <= s.optind && |s0.argv| == |s.argv| && s0.ordering == s.ordering
    requires s.optind <= |s.argv| && s.argv[s.optind..] == s0.argv[s.optind..]
    ensures Advanced(s0, s', p, r, optarg, opts, cfg)
  {
    hide Parse, ParseElement, Answered;
    if r.None? {
      assert s'.argv[s'.optind..] == s.argv[s.optind..][s'.optind - s.optind..];
    } else if p.events != [] {
      AnsweredEarlier(s0, s, s', p, cfg);
    }
  }

  /** The clamp at src/getopt.c:549-552 changes nothing that is read through `First` and `Last`. */
  lemma Clamped(s: Scan, opts: string, cfg: Config)
    requires s.Valid()
    ensures var s' := s.(first := s.First(), last := s.Last());
            s'.Valid() && s'.Outlook(opts, cfg) == s.Outlook(opts, cfg)
  {
  }

  /** Entering an option element does not change the outlook. */
  lemma OptionStarts(s: Scan, opts: string, cfg: Config)
    requires s.Valid() && s.nextchar == "" && s.last <= s.optind
    requires s.optind < |s.argv| && s.argv[s.optind] != TERMINATOR && !IsOperand(s.argv[s.optind])
    ensures var s' := s.(nextchar := OptionText(s.argv[s.optind], cfg.table));
            s'.Valid() && s'.Outlook(opts, cfg) == s.Outlook(opts, cfg)
  {
    hide DecodeShort, DecodeLong, Parse, ParseElement;
    var args := s.argv[s.optind..];
    assert args[1..] == s.argv[s.optind + 1..];
    ParseAtOption(args, opts, cfg);
  }

  lemma AlreadySettled(s: Scan)
    requires s.first <= s.last == s.optind <= |s.argv|
    ensures Rotated(s.argv, s.first, s.last, s.optind) == s.argv
  {
  }

  /** The state once operands and options read so far are settled: by an exchange, or by an empty operand range. */
  lemma Settling(s: Scan, s': Scan, opts: string, cfg: Config)
    requires s.Valid() && s.nextchar == "" && s.last <= s.optind && s.ordering == Permute
    requires s'.optind == s'.last == s.optind && s'.nextchar == "" && s'.ordering == Permute
    requires if s.first == s.last then s'.argv == s.argv && s'.first == s.optind
             else s'.argv == Rotated(s.argv, s.first, s.last, s.optind) && s'.first == s.first + (s.optind - s.last)
    ensures s'.Valid() && s'.Outlook(opts, cfg) == s.Outlook(opts, cfg)
    ensures |s'.argv| == |s.argv| && s'.argv[s.optind..] == s.argv[s.optind..]
  {
    if s.first == s.last {
      assert s.Taken() == s.argv[..s.optind] && s.Skipped() == [];
    } else {
      ExchangeKeepsOrder(s, s');
      forall k | s'.First() <= k < s'.Last()
        ensures IsOperand(s'.argv[k])
      {
        assert s'.argv[k] == s'.Skipped()[k - s'.First()] == s.argv[s.First() + (k - s'.First())];
      }
    }
  }

  /** Without operands in front of unread options, options and operands are in final order. */
  lemma FinalOrder(s: Scan)
    requires s.InRange() && (s.First() == s.Last() || s.Last() == s.optind)
    ensures var t := if s.First() == s.Last() then s.optind else s.First();
            && s.argv[..s.optind] == s.Taken() + s.Skipped()
            && s.argv == s.Taken() + (s.Skipped() + s.argv[s.optind..])
            && |s.Taken()| == t
  {
  }

  /** A vector read to its end, or stopped at an operand, already has its final order. */
  lemma NothingLeft(s: Scan, opts: string, cfg: Config)
    requires s.Valid() && s.nextchar == "" && s.ordering == cfg.ordering
    requires s.First() == s.Last() || s.Last() == s.optind
    requires s.optind < |s.argv| ==>
               s.ordering == RequireOrder && s.argv[s.optind] != TERMINATOR && IsOperand(s.argv[s.optind])
    ensures Ended(s.(optind := if s.First() == s.Last() then s.optind else s.First()), s.Outlook(opts, cfg))
  {
    FinalOrder(s);
    ParseAtEnd(s.argv[s.optind..], opts, cfg);
  }

  /** Moving `--` in front of the skipped operands. */
  lemma TerminatorMoved(s: Scan, argv: seq<string>)
    requires s.InRange() && s.optind < |s.argv|
    requires if s.First() == s.Last() then argv == s.argv
             else s.Last() == s.optind && argv == Rotated(s.argv, s.First(), s.optind, s.optind + 1)
    ensures argv == s.Taken() + [s.argv[s.optind]] + (s.Skipped() + s.argv[s.optind + 1..])
    ensures |s.Taken()| == if s.First() == s.Last() then s.optind else s.First()
  {
    assert s.argv[s.optind..s.optind + 1] == [s.argv[s.optind]];
  }

  /** At `--`, the skipped operands go behind it and everything after it is an operand. */
  lemma TerminatorReached(s: Scan, argv: seq<string>, opts: string, cfg: Config)
    requires s.Valid() && s.nextchar == "" && s.optind < |s.argv| && s.argv[s.optind] == TERMINATOR
    requires if s.First() == s.Last() then argv == s.argv
             else s.Last() == s.optind && argv == Rotated(s.argv, s.First(), s.optind, s.optind + 1)
    ensures var first := if s.First() == s.Last() then s.optind + 1 else s.First() + 1;
            Ended(Scan(argv, first, "", first, |argv|, s.ordering), s.Outlook(opts, cfg))
  {
    hide Parse, ParseElement;
    TerminatorMoved(s, argv);
    ParseAtTerminator(s.argv[s.optind..], opts, cfg);
    assert s.argv[s.optind..][1..] == s.argv[s.optind + 1..];
  }
}
