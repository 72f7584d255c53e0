/** `getopt` itself (src/getopt.c:246-975): the static variables as fields, the vector exchanged in place. */
module GetoptClass {
  import opened Options
  import opened LongOptions
  import opened CommandLine
  import opened Strings
  import opened Permutation
  import opened Scanning
  import opened InOrder

  class Getopt {
    var optarg: Option<string>
    var optind: nat
    var optopt: int
    var longind: int
    var flags: map<nat, int>
    var initialized: bool
    var nextchar: string
    var firstNonopt: nat
    var lastNonopt: nat
    var ordering: Ordering
    const posixlyCorrect: bool

    ghost function View(argv: array<string>): Scan
      reads this, argv
    {
      Scan(argv[..], optind, nextchar, firstNonopt, lastNonopt, ordering)
    }

    /** Exchanges the skipped operands [firstNonopt, lastNonopt) with the options [lastNonopt, optind) behind
        them. The number of element swaps is the total length less the greatest common divisor. */
    method Exchange(argv: array<string>) returns (ghost swaps: nat)
      requires firstNonopt <= lastNonopt <= optind <= argv.Length
      modifies argv, this`firstNonopt, this`lastNonopt
      ensures argv[..] == Rotated(old(argv[..]), old(firstNonopt), old(lastNonopt), optind)
      ensures firstNonopt == old(firstNonopt) + (optind - old(lastNonopt)) && lastNonopt == optind
      ensures swaps + Gcd(old(lastNonopt - firstNonopt), optind - old(lastNonopt)) == optind - old(firstNonopt)
    {
      var bottom: nat, middle: nat, top: nat := firstNonopt, lastNonopt, optind;
      swaps := 0;
      ghost var goal := Rotated(argv[..], bottom, middle, top);
      ghost var g := Gcd(middle - bottom, top - middle);
      while top > middle && middle > bottom
        modifies argv
        invariant bottom <= middle <= top <= argv.Length
        invariant Rotated(argv[..], bottom, middle, top) == goal
        invariant Gcd(middle - bottom, top - middle) == g
        invariant swaps + (top - bottom) == optind - firstNonopt
        decreases top - bottom
      {
        ghost var n;
        bottom, top, n := ShrinkExchange(argv, bottom, middle, top);
        swaps := swaps + n;
      }
      NothingToRotate(argv[..], bottom, middle, top);
      firstNonopt := firstNonopt + (optind - lastNonopt);
      lastNonopt := optind;
    }

    /** One round of `Exchange`: the shorter block is swapped into its final place and shut out. */
    static method ShrinkExchange(argv: array<string>, bottom: nat, middle: nat, top: nat)
      returns (bottom': nat, top': nat, ghost swaps: nat)
      requires bottom < middle < top <= argv.Length
      modifies argv
      ensures bottom <= bottom' <= middle <= top' <= top && 0 < swaps == (top - bottom) - (top' - bottom')
      ensures Rotated(argv[..], bottom', middle, top') == Rotated(old(argv[..]), bottom, middle, top)
      ensures Gcd(middle - bottom', top' - middle) == Gcd(middle - bottom, top - middle)
    {
      hide Rotated, RunsSwapped;
      ghost var before := argv[..];
      bottom', top' := bottom, top;
      if top - middle > middle - bottom {
        var len := middle - bottom;
        swaps := SwapRuns(argv, bottom, top - len, len);
        BottomShort(before, argv[..], bottom, middle, top, len);
        top' := top - len;
      } else {
        var len := top - middle;
        swaps := SwapRuns(argv, bottom, middle, len);
        TopShort(before, argv[..], bottom, middle, top, len);
        bottom' := bottom + len;
      }
    }

    /** The inner loop of `Exchange`. */
    static method SwapRuns(argv: array<string>, i: nat, j: nat, len: nat) returns (ghost swaps: nat)
      requires i + len <= j && j + len <= argv.Length
      modifies argv
      ensures argv[..] == RunsSwapped(old(argv[..]), i, j, len) && swaps == len
    {
      swaps := 0;
      for k := 0 to len
        invariant swaps == k
        invariant forall m :: i <= m < i + k ==> argv[m] == old(argv[..])[m + (j - i)]
        invariant forall m :: j <= m < j + k ==> argv[m] == old(argv[..])[m - (j - i)]
        invariant forall m :: 0 <= m < argv.Length && !(i <= m < i + k) && !(j <= m < j + k) ==>
                    argv[m] == old(argv[..])[m]
      {
        argv[i + k], argv[j + k] := argv[j + k], argv[i + k];
        swaps := swaps + 1;
      }
      RunsAssembled(old(argv[..]), argv[..], i, j, len);
    }

    /** What an answer leaves in the caller's variables. */
    twostate predicate Stored(e: Event)
      reads this
    {
      && optarg == e.optarg
      && optopt == e.optopt.GetOr(old(optopt))
      && (if e.longind.Some? then longind == e.longind.value else longind == old(longind))
      && flags == (if e.flagSet.Some? then old(flags)[e.flagSet.value.0 := e.flagSet.value.1] else old(flags))
    }

    /** Moves the operands skipped so far behind the options read since. */
    method Settle(argv: array<string>, ghost opts: string, ghost cfg: Config)
      requires View(argv).Valid() && nextchar == "" && lastNonopt <= optind && ordering == Permute
      modifies argv, this`firstNonopt, this`lastNonopt
      ensures var v := View(argv).(last := optind);
              && v.Valid() && v.Outlook(opts, cfg) == old(View(argv).Outlook(opts, cfg))
              && argv[optind..] == old(argv[..])[optind..]
    {
      ghost var s := View(argv);
      if firstNonopt != lastNonopt && lastNonopt != optind {
        ghost var n := Exchange(argv);
      } else if lastNonopt != optind {
        firstNonopt := optind;
      } else {
        AlreadySettled(s);
      }
      Settling(s, View(argv).(last := optind), opts, cfg);
    }

    /** Settles the options read so far, then skips the operands that follow. */
    method SkipOperands(argv: array<string>, ghost opts: string, ghost cfg: Config)
      requires View(argv).Valid() && nextchar == "" && lastNonopt <= optind
      requires ordering == cfg.ordering == Permute
      modifies argv, this`optind, this`firstNonopt, this`lastNonopt
      ensures View(argv).Valid() && lastNonopt == optind
      ensures optind < argv.Length ==> !IsOperand(argv[optind]) && |argv[optind]| >= 2 && argv[optind][0] == '-'
      ensures View(argv).Outlook(opts, cfg) == old(View(argv).Outlook(opts, cfg))
      ensures old(optind) <= optind && argv[optind..] == old(argv[..])[optind..]
    {
      hide Scan.Outlook, Parse, ParseElement;
      Settle(argv, opts, cfg);
      ghost var v := View(argv).(last := optind);
      while optind < argv.Length && IsOperand(argv[optind])
        modifies this`optind
        invariant v.optind <= optind <= argv.Length
        invariant forall k :: v.optind <= k < optind ==> IsOperand(v.argv[k])
      {
        optind := optind + 1;
      }
      lastNonopt := optind;
      OperandsSkipped(v, optind, opts, cfg);
      assert View(argv) == v.(optind := optind, last := optind);
      ShorterSuffix(argv[..], old(argv[..]), v.optind, optind);
    }

    /** Handles `--` and the end of the vector, where the skipped operands are put back in front. */
    method AtEnd(argv: array<string>, ghost opts: string, ghost cfg: Config) returns (done: bool)
      requires View(argv).Valid() && nextchar == "" && lastNonopt <= optind && ordering == cfg.ordering
      requires ordering == Permute ==> lastNonopt == optind
      modifies argv, this`optind, this`firstNonopt, this`lastNonopt
      ensures done ==> Ended(View(argv), old(View(argv).Outlook(opts, cfg)))
      ensures !done ==> View(argv) == old(View(argv)) && optind < argv.Length && argv[optind] != TERMINATOR
      ensures ordering != Permute ==> argv[..] == old(argv[..])
    {
      hide Scan.Outlook, Parse, Ended, Rotated;
      ghost var s := View(argv);
      ghost var e := s;
      if optind != argv.Length && argv[optind] == TERMINATOR {
        optind := optind + 1;
        if firstNonopt != lastNonopt && lastNonopt != optind {
          ghost var n := Exchange(argv);
        } else if firstNonopt == lastNonopt {
          firstNonopt := optind;
        }
        lastNonopt := argv.Length;
        optind := argv.Length;
        TerminatorReached(s, argv[..], opts, cfg);
        e := View(argv).(optind := firstNonopt);
      } else if optind == argv.Length {
        NothingLeft(s, opts, cfg);
        e := s.(optind := if firstNonopt == lastNonopt then optind else firstNonopt);
      }
      done := optind == argv.Length;
      if done && firstNonopt != lastNonopt {
        optind := firstNonopt;
      }
      assert done ==> View(argv) == e;
    }

    /** Describes an operand that is not to be skipped, or enters an option element. */
    method EnterElement(argv: array<string>, table: Option<seq<LongOption>>, ghost opts: string, ghost cfg: Config)
      returns (r: Option<int>)
      requires View(argv).Valid() && nextchar == "" && optarg == None && lastNonopt <= optind < argv.Length
      requires argv[optind] != TERMINATOR && (ordering == Permute ==> !IsOperand(argv[optind]))
      requires ordering == cfg.ordering && table == cfg.table
      modifies this`optind, this`optarg, this`nextchar
      ensures Advanced(old(View(argv)), View(argv), old(View(argv).Outlook(opts, cfg)), r, optarg, opts, cfg)
    {
      hide Scan.Outlook, Parse, Answered;
      ghost var s := View(argv);
      if IsOperand(argv[optind]) {
        if ordering == RequireOrder {
          NothingLeft(s, opts, cfg);
          return Some(-1);
        }
        optarg := Some(argv[optind]);
        optind := optind + 1;
        OperandReturned(s, opts, cfg);
        assert View(argv) == s.(optind := s.optind + 1);
        return Some(1);
      }
      nextchar := argv[optind][1 + (if IsLong(argv[optind], table) then 1 else 0)..];
      OptionStarts(s, opts, cfg);
      assert View(argv) == s.(nextchar := nextchar);
      return None;
    }

    /** Advances to the next element. The result is `None` when that is an option element, now in `nextchar`. */
    method NextElement(argv: array<string>, table: Option<seq<LongOption>>, ghost opts: string, ghost cfg: Config)
      returns (r: Option<int>)
      requires View(argv).Valid() && nextchar == "" && optarg == None
      requires ordering == cfg.ordering && table == cfg.table
      modifies argv, this`optind, this`firstNonopt, this`lastNonopt, this`optarg, this`nextchar
      ensures Advanced(old(View(argv)), View(argv), old(View(argv).Outlook(opts, cfg)), r, optarg, opts, cfg)
      ensures ordering != Permute ==> argv[..] == old(argv[..])
    {
      hide Scan.Outlook, Parse, Answered;
      ghost var s0 := View(argv);
      if lastNonopt > optind { lastNonopt := optind; }
      if firstNonopt > optind { firstNonopt := optind; }
      Clamped(s0, opts, cfg);
      assert View(argv) == s0.(first := s0.First(), last := s0.Last());
      if ordering == Permute {
        SkipOperands(argv, opts, cfg);
      }
      var done := AtEnd(argv, opts, cfg);
      if done {
        return Some(-1);
      }
      ghost var s := View(argv);
      r := EnterElement(argv, table, opts, cfg);
      AdvancedEarlier(s0, s, View(argv), s.Outlook(opts, cfg), r, optarg, opts, cfg);
    }

    /** Finds the end of a long option's name and what the name resolves to. */
    static method ReadName(text: string, table: seq<LongOption>) returns (nameend: nat, found: Resolution)
      ensures nameend == NameEnd(text) && nameend <= |text| && found == Resolve(table, text[..nameend])
    {
      nameend := 0;
      while nameend < |text| && text[nameend] != '='
        invariant nameend <= |text| && '=' !in text[..nameend]
      {
        nameend := nameend + 1;
      }
      NameEnds(text, nameend);
      found := MatchLongOption(table, text[..nameend]);
    }

    /** Reads a long option, with its argument behind `=` or in the next element. */
    method LongOption(argv: array<string>, opts: string, table: seq<LongOption>) returns (r: int)
      requires View(argv).Valid() && nextchar != "" && optarg == None
      modifies this`optind, this`nextchar, this`optarg, this`optopt, this`longind, this`flags
      ensures var d := DecodeLong(old(nextchar), argv[old(optind) + 1..], opts, table);
              r == d.event.code && nextchar == "" && optind == old(optind) + 1 + d.used && Stored(d.event)
    {
      hide First, IndexOf, Resolve, Interchangeable, Abbreviates;
      var nameend, found := ReadName(nextchar, table);
      ghost var following := argv[optind + 1..];
      optind := optind + 1;
      if found.Ambiguous? || found.Unknown? {
        nextchar := "";
        optopt := 0;
        return '?' as int;
      }
      var pfound := table[found.index];
      if nameend < |nextchar| {
        if pfound.hasArg != 0 {
          optarg := Some(nextchar[nameend + 1..]);
        } else {
          nextchar := "";
          optopt := pfound.val;
          return '?' as int;
        }
      } else if pfound.hasArg == 1 {
        if optind < argv.Length {
          optarg := Some(argv[optind]);
          assert following[0] == argv[optind];
          optind := optind + 1;
        } else {
          nextchar := "";
          optopt := pfound.val;
          return MissingCode(opts);
        }
      }
      nextchar := "";
      longind := found.index;
      if pfound.flag.Some? {
        flags := flags[pfound.flag.value := pfound.val];
        return 0;
      }
      return pfound.val;
    }

    /** Reads the next option character of a cluster. */
    method ShortOption(argv: array<string>, opts: string) returns (r: int)
      requires View(argv).Valid() && nextchar != "" && optarg == None
      modifies this`optind, this`nextchar, this`optarg, this`optopt
      ensures var d := DecodeShort(old(nextchar), argv[old(optind) + 1..], opts);
              && r == d.event.code && nextchar == d.rest && Stored(d.event)
              && optind == old(optind) + if d.rest == "" then 1 + d.used else 0
    {
      ghost var following := argv[optind + 1..];
      var c := nextchar[0];
      var temp := IndexOf(opts, c);
      nextchar := nextchar[1..];
      if nextchar == "" {
        optind := optind + 1;
      }
      if temp.None? || c == ':' {
        optopt := c as int;
        return '?' as int;
      }
      r := c as int;
      if CharAt(opts, temp.value + 1) == ':' {
        if CharAt(opts, temp.value + 2) == ':' {
          if nextchar != "" {
            optarg := Some(nextchar);
            optind := optind + 1;
          }
        } else if nextchar != "" {
          optarg := Some(nextchar);
          optind := optind + 1;
        } else if optind == argv.Length {
          optopt := c as int;
          r := MissingCode(opts);
        } else {
          optarg := Some(argv[optind]);
          assert following[0] == argv[optind];
          optind := optind + 1;
        }
        nextchar := "";
      }
    }

    ghost predicate Starting()
      reads this
    {
      optind == 0 || !initialized
    }

    /** The state a call works from, after initialization if it is the first one. */
    ghost function Start(argv: array<string>, optstring: string): Scan
      reads this, argv
    {
      if Starting() then
        var i := if optind == 0 then 1 else optind;
        Scan(argv[..], i, "", i, i, OrderingOf(optstring, posixlyCorrect))
      else
        View(argv)
    }

    /** The option characters a call sees: only the initializing call drops the mark of an ordering. */
    ghost function Visible(optstring: string): string
      reads this
    {
      if Starting() then Stripped(optstring) else optstring
    }

    /** `_getopt_initialize` */
    method Initialize(optstring: string) returns (opts: string)
      modifies this`firstNonopt, this`lastNonopt, this`nextchar, this`ordering
      ensures firstNonopt == lastNonopt == optind && nextchar == ""
      ensures ordering == OrderingOf(optstring, posixlyCorrect) && opts == Stripped(optstring)
      ensures Chosen(optstring, posixlyCorrect, ordering, opts)
    {
      firstNonopt, lastNonopt := optind, optind;
      nextchar := "";
      opts := optstring;
      if CharAt(optstring, 0) == '-' {
        ordering := ReturnInOrder;
        opts := opts[1..];
      } else if CharAt(optstring, 0) == '+' {
        ordering := RequireOrder;
        opts := opts[1..];
      } else if posixlyCorrect {
        ordering := RequireOrder;
      } else {
        ordering := Permute;
      }
    }

    /** Reads the next option of the current element. */
    method ReadOption(argv: array<string>, opts: string, table: Option<seq<LongOption>>, ghost cfg: Config)
      returns (r: int)
      requires View(argv).Valid() && nextchar != "" && optarg == None && table == cfg.table
      modifies this`optind, this`nextchar, this`optarg, this`optopt, this`longind, this`flags
      ensures var p := old(View(argv).Outlook(opts, cfg));
              Answered(old(View(argv)), View(argv), p, cfg) && r == p.events[0].code && Stored(p.events[0])
    {
      hide Scan.Outlook, Parse, ParseElement, DecodeShort, DecodeLong, Answered;
      ghost var s := View(argv);
      if IsLong(argv[optind], table) {
        r := LongOption(argv, opts, table.value);
      } else {
        r := ShortOption(argv, opts);
      }
      OptionRead(s, View(argv), opts, cfg);
    }

    /** The start of a call, which initializes the scan if it is the first one. */
    method Begin(argv: array<string>, optstring: string) returns (opts: string)
      modifies this`optind, this`initialized, this`firstNonopt, this`lastNonopt, this`nextchar, this`ordering,
               this`optarg
      ensures View(argv) == old(Start(argv, optstring)) && opts == old(Visible(optstring))
      ensures initialized && optarg == None
    {
      optarg := None;
      opts := optstring;
      if optind == 0 || !initialized {
        if optind == 0 {
          optind := 1;
        }
        opts := Initialize(optstring);
        initialized := true;
      }
    }

    /** The part of a call after `Begin`. */
    method Continue(argv: array<string>, opts: string, table: Option<seq<LongOption>>, ghost cfg: Config)
      returns (r: int)
      requires View(argv).Valid() && optarg == None && ordering == cfg.ordering && table == cfg.table
      modifies argv, this`optind, this`firstNonopt, this`lastNonopt, this`nextchar,
               this`optarg, this`optopt, this`longind, this`flags
      ensures var p := old(View(argv).Outlook(opts, cfg));
              if p.events == []
              then r == -1 && Ended(View(argv), p) && optarg == None && unchanged(`optopt, `longind, `flags)
              else Answered(old(View(argv)), View(argv), p, cfg) && r == p.events[0].code && Stored(p.events[0])
      ensures ordering != Permute ==> argv[..] == old(argv[..])
    {
      hide Scan.Outlook, Scan.Valid, Parse, ParseElement, Ended;
      ghost var s0 := View(argv);
      if nextchar == "" {
        var done := NextElement(argv, table, opts, cfg);
        if done.Some? {
          return done.value;
        }
      }
      ghost var s := View(argv);
      r := ReadOption(argv, opts, table, cfg);
      AnsweredEarlier(s0, s, View(argv), s.Outlook(opts, cfg), cfg);
    }

    /** `_getopt_internal` */
    method GetoptInternal(argv: array<string>, optstring: string, table: Option<seq<LongOption>>) returns (r: int)
      requires NoLongW(optstring)
      requires argv.Length > 0 ==> Start(argv, optstring).Valid()
      modifies this, argv
      ensures argv.Length == 0 ==> r == -1 && View(argv) == old(View(argv)) && initialized == old(initialized)
      ensures argv.Length > 0 ==>
                var s := old(Start(argv, optstring));
                var cfg := Config(s.ordering, optstring, table);
                var p := s.Outlook(old(Visible(optstring)), cfg);
                && initialized && ordering == s.ordering
                && (old(Starting()) ==> Chosen(optstring, posixlyCorrect, ordering, old(Visible(optstring))))
                && if p.events == []
                   then r == -1 && Ended(View(argv), p) && optarg == None && unchanged(`optopt, `longind, `flags)
                   else Answered(s, View(argv), p, cfg) && r == p.events[0].code && Stored(p.events[0])
      ensures ordering != Permute ==> argv[..] == old(argv[..])
    {
      hide Scan.Outlook, Scan.Valid, Parse, ParseElement, Ended, Answered;
      if argv.Length < 1 {
        return -1;
      }
      OrderingChosen(optstring, posixlyCorrect);
      var opts := Begin(argv, optstring);
      r := Continue(argv, opts, table, Config(ordering, optstring, table));
    }

    /** Calls `getopt` until it returns -1. From a fresh scanner the ordering is chosen as documented. */
    method Run(argv: array<string>, optstring: string, table: Option<seq<LongOption>>) returns (replies: seq<Reply>)
      requires NoLongW(optstring)
      requires argv.Length > 0 && Start(argv, optstring).Valid()
      modifies this, argv
      ensures var s := old(Start(argv, optstring));
              var cfg := Config(s.ordering, optstring, table);
              && Completed(s.Outlook(old(Visible(optstring)), cfg), replies, View(argv))
              && (s.ordering != Permute ==> argv[..] == old(argv[..]))
      ensures old(Starting() && optind <= 1) && !posixlyCorrect && (optstring == "" || optstring[0] !in "+-") ==>
                CompletedFresh(old(argv[..]), optstring, Config(Permute, optstring, table), replies, View(argv))
      ensures old(Starting() && optind <= 1) && posixlyCorrect && (optstring == "" || optstring[0] !in "+-") ==>
                CompletedFresh(old(argv[..]), optstring, Config(RequireOrder, optstring, table), replies, View(argv))
      ensures old(Starting() && optind <= 1) && optstring != "" && optstring[0] == '+' ==>
                var cfg := Config(RequireOrder, optstring, table);
                CompletedFresh(old(argv[..]), optstring[1..], cfg, replies, View(argv))
      ensures old(Starting() && optind <= 1) && optstring != "" && optstring[0] == '-' ==>
                var cfg := Config(ReturnInOrder, optstring, table);
                && CompletedFresh(old(argv[..]), optstring[1..], cfg, replies, View(argv))
                && ToldInOrder(argv[1..], optstring[1..], cfg, replies, View(argv))
    {
      hide Scan.Outlook, Scan.Valid, Parse, ParseElement, Ended, ToldInOrder, Stripped, OrderingOf, NoLongW;
      OrderingChosen(optstring, posixlyCorrect);
      replies := [];
      ghost var cfg := Config(Start(argv, optstring).ordering, optstring, table);
      ghost var p := Start(argv, optstring).Outlook(Visible(optstring), cfg);
      ghost var rest := p;
      FreshOutlook(argv[..], Stripped(optstring), Config(OrderingOf(optstring, posixlyCorrect), optstring, table));
      while true
        invariant Start(argv, optstring).Valid() && Start(argv, optstring).ordering == cfg.ordering
        invariant rest == Start(argv, optstring).Outlook(Visible(optstring), cfg)
        invariant |replies| + |rest.events| == |p.events| && rest == p.(events := p.events[|replies|..])
        invariant Predicted(p, replies, argv.Length)
        invariant cfg.ordering != Permute ==> argv[..] == old(argv[..])
        decreases |rest.events|
      {
        var r := GetoptInternal(argv, optstring, table);
        if r == -1 {
          break;
        }
        replies := replies + [Reply(r, optarg, optind)];
        rest := rest.(events := rest.events[1..]);
        assert View(argv).InRange() by { InRangeAfter(View(argv)); }
      }
      if old(Starting() && optind <= 1) && optstring != "" && optstring[0] == '-' {
        RunTells(argv[..], Stripped(optstring), cfg, replies, View(argv));
        assert argv[..][1..] == argv[1..];
      }
    }
  }
}
