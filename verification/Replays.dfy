/** Reading a vector in pieces, and reading again the vector that a permuting scan leaves behind. */
module Replays {
  import opened Options
  import opened LongOptions
  import opened CommandLine
  import opened Strings
  import opened Readings

  /** An option element reads the same in front of anything, once its arguments are in place. */
  lemma FrontDepends(args: seq<string>, other: seq<string>, opts: string, cfg: Config, cfg': Config)
    requires args != [] && args[0] != TERMINATOR && !IsOperand(args[0]) && cfg' == cfg.(ordering := cfg'.ordering)
    requires var r := Front(args, opts, cfg);
             !Starved(r.events) && r.used <= |other| && args[..r.used] == other[..r.used]
    ensures other[0] == args[0]
    ensures var r, r' := Front(args, opts, cfg), Front(other, opts, cfg');
            Answers(r'.events) == Answers(r.events) && r'.used == r.used
  {
    hide DecodeShort, DecodeLong, Decode, ReadElement;
    var k := Front(args, opts, cfg).used;
    assert args[0] == args[..k][0] == other[..k][0];
    assert args[1..][..k - 1] == args[..k][1..] == other[..k][1..] == other[1..][..k - 1];
    var text := OptionText(args[0], cfg.table);
    ElementDepends(args[0], text, args[1..], other[1..], opts, cfg);
    ElementIgnoresOrdering(args[0], text, other[1..], opts, cfg, cfg');
  }

  /** Reading a vector whose front is the option element, with its arguments, of another vector. */
  lemma FrontRead(args: seq<string>, whole: seq<string>, opts: string, cfg: Config, cfg': Config)
    requires args != [] && args[0] != TERMINATOR && !IsOperand(args[0]) && cfg' == cfg.(ordering := cfg'.ordering)
    requires var own := Front(args, opts, cfg);
             !Starved(own.events) && own.used <= |whole| && args[..own.used] == whole[..own.used]
    ensures var own := Front(args, opts, cfg);
            var q, r := Parse(whole, opts, cfg'), Read(whole[own.used..], cfg');
            && Answers(q.events) == Answers(own.events) + Answers(r.events)
            && q.events[|own.events|..] == r.events
            && q.options == args[..own.used] + r.options && q.operands == r.operands && q.terminated == r.terminated
  {
    hide DecodeShort, DecodeLong, Decode, ReadElement, Parse, Front;
    FrontDepends(args, whole, opts, cfg, cfg');
    ParseFront(whole, opts, cfg');
    var own' := Front(whole, opts, cfg');
    AnswersOfBoth(own'.events, Read(whole[own'.used..], cfg').events);
  }

  lemma NotStarved(a: seq<Event>, b: seq<Event>)
    requires !Starved(a + b)
    ensures !Starved(a) && !Starved(b)
  {
    assert forall i :: 0 <= i < |a| ==> (a + b)[i] == a[i];
    assert forall i :: 0 <= i < |b| ==> (a + b)[|a| + i] == b[i];
  }

  /** The option characters that the next call sees after those that gave `events`. */
  function Next(events: seq<Event>, opts: string, cfg: Config): string {
    if events == [] then opts else cfg.opts
  }

  /** The reading of `pre + tail` is the readings of its parts. */
  ghost predicate Appends(pre: seq<string>, tail: seq<string>, opts: string, cfg: Config) {
    var p, q := Parse(pre, opts, cfg), Parse(pre + tail, opts, cfg);
    var t := Parse(tail, Next(p.events, opts, cfg), cfg);
    && Answers(q.events) == Answers(p.events) + Answers(t.events)
    && |p.events| <= |q.events| && q.events[|p.events|..] == t.events
    && q.options == p.options + t.options && q.operands == p.operands + t.operands
    && q.terminated == t.terminated
  }

  function OperandAnswer(args: seq<string>): Event
    requires args != []
  {
    Event(1, Some(args[0]), None, None, None, |args| - 1, false)
  }

  lemma OperandAnswered(args: seq<string>, opts: string, cfg: Config)
    requires cfg.ordering == ReturnInOrder && args != [] && IsOperand(args[0])
    ensures Parse(args, opts, cfg) == Read(args[1..], cfg).Behind([args[0]]).After([OperandAnswer(args)])
  {
  }

  lemma AppendsFront(pre: seq<string>, tail: seq<string>, opts: string, cfg: Config)
    requires pre != [] && pre[0] != TERMINATOR && !IsOperand(pre[0])
    requires !Starved(Front(pre, opts, cfg).events) && Front(pre, opts, cfg).events != []
    requires Appends(pre[Front(pre, opts, cfg).used..], tail, cfg.opts, cfg)
    ensures Appends(pre, tail, opts, cfg)
  {
    hide Parse, Front, Answers;
    var own := Front(pre, opts, cfg);
    var whole, rest := pre + tail, pre[own.used..];
    ParseFront(pre, opts, cfg);
    assert whole[own.used..] == rest + tail && whole[..own.used] == pre[..own.used];
    FrontRead(pre, whole, opts, cfg, cfg);
    var p := Read(rest, cfg);
    AnswersOfBoth(own.events, p.events);
    var q := Parse(whole, opts, cfg);
    assert |Answers(q.events)| == |q.events| by { AnswersLength(q.events); }
    AnswersLength(own.events);
    AnswersLength(Read(rest + tail, cfg).events);
    assert q.events[|own.events + p.events|..] == q.events[|own.events|..][|p.events|..];
  }

  lemma AnswersLength(events: seq<Event>)
    ensures |Answers(events)| == |events|
  {
  }

  lemma AppendsOperand(pre: seq<string>, tail: seq<string>, opts: string, cfg: Config)
    requires cfg.ordering == ReturnInOrder && pre != [] && IsOperand(pre[0])
    requires Appends(pre[1..], tail, cfg.opts, cfg)
    ensures Appends(pre, tail, opts, cfg)
  {
    hide Parse, Answers;
    var whole := pre + tail;
    assert whole[1..] == pre[1..] + tail;
    OperandAnswered(pre, opts, cfg);
    OperandAnswered(whole, opts, cfg);
    var p, q := Read(pre[1..], cfg), Read(whole[1..], cfg);
    var a, b := OperandAnswer(pre), OperandAnswer(whole);
    AnswersOfBoth([a], p.events);
    AnswersOfBoth([b], q.events);
    assert Answers([a]) == Answers([b]) by { SameAnswer(a, b); }
    assert ([b] + q.events)[|[a] + p.events|..] == q.events[|p.events|..];
  }

  lemma SameAnswer(a: Event, b: Event)
    requires Observable(a) == Observable(b)
    ensures Answers([a]) == Answers([b])
  {
  }

  /** The reading of a vector cut where no option or `--` is at work is the readings of its parts. */
  lemma {:induction false} ReadAppend(pre: seq<string>, tail: seq<string>, opts: string, cfg: Config)
    requires cfg.ordering == RequireOrder ==> Parse(pre, opts, cfg).operands == []
    requires !Starved(Parse(pre, opts, cfg).events) && !Parse(pre, opts, cfg).terminated
    ensures Appends(pre, tail, opts, cfg)
    decreases |pre|
  {
    hide DecodeShort, DecodeLong, Decode, ReadElement, Answers;
    if pre == [] {
      assert pre + tail == tail;
      assert Answers([]) == [] by { AnswersLength([]); }
    } else if !IsOperand(pre[0]) {
      var own := Front(pre, opts, cfg);
      ParseFront(pre, opts, cfg);
      NotStarved(own.events, Read(pre[own.used..], cfg).events);
      ReadAppend(pre[own.used..], tail, cfg.opts, cfg);
      AppendsFront(pre, tail, opts, cfg);
    } else if cfg.ordering == Permute {
      assert (pre + tail)[1..] == pre[1..] + tail;
      ReadAppend(pre[1..], tail, opts, cfg);
    } else {
      OperandAnswered(pre, opts, cfg);
      NotStarved([OperandAnswer(pre)], Read(pre[1..], cfg).events);
      ReadAppend(pre[1..], tail, cfg.opts, cfg);
      AppendsOperand(pre, tail, opts, cfg);
    }
  }

  /** What the options of `args`, without its operands, say in front of `tail`. */
  ghost predicate OptionsAlone(args: seq<string>, tail: seq<string>, cfg: Config, cfg': Config) {
    var p, q := Read(args, cfg), Read(Read(args, cfg).options + tail, cfg');
    var t := if p.terminated then Parsed([], [], tail, true) else Read(tail, cfg');
    && Answers(q.events) == Answers(p.events) + Answers(t.events)
    && q.options == p.options + t.options && q.operands == t.operands && q.terminated == t.terminated
  }

  lemma OptionsAloneFront(args: seq<string>, tail: seq<string>, cfg: Config, cfg': Config)
    requires cfg.ordering == Permute && cfg' == cfg.(ordering := cfg'.ordering) && !Starved(Read(args, cfg).events)
    requires args != [] && args[0] != TERMINATOR && !IsOperand(args[0])
    requires OptionsAlone(args[Front(args, cfg.opts, cfg).used..], tail, cfg, cfg')
    ensures OptionsAlone(args, tail, cfg, cfg')
  {
    hide Parse, Front, Answers;
    var own := Front(args, cfg.opts, cfg);
    var rest := args[own.used..];
    ParseFront(args, cfg.opts, cfg);
    var options := Read(rest, cfg).options;
    var whole := Read(args, cfg).options + tail;
    assert whole == args[..own.used] + (options + tail);
    assert whole[own.used..] == options + tail && whole[..own.used] == args[..own.used];
    NotStarved(own.events, Read(rest, cfg).events);
    FrontRead(args, whole, cfg.opts, cfg, cfg');
    AnswersOfBoth(own.events, Read(rest, cfg).events);
  }

  /** Dropping the operands from between the options does not change what the options say. */
  lemma {:induction false} ReadOptions(args: seq<string>, tail: seq<string>, cfg: Config, cfg': Config)
    requires cfg.ordering == Permute && cfg' == cfg.(ordering := cfg'.ordering) && !Starved(Read(args, cfg).events)
    ensures OptionsAlone(args, tail, cfg, cfg')
    decreases |args|
  {
    hide DecodeShort, DecodeLong, Decode, ReadElement;
    if args == [] {
      assert [] + tail == tail;
    } else if args[0] == TERMINATOR {
      ParseAtTerminator([TERMINATOR] + tail, cfg'.opts, cfg');
    } else if IsOperand(args[0]) {
      ReadOptions(args[1..], tail, cfg, cfg');
    } else {
      var own := Front(args, cfg.opts, cfg);
      ParseFront(args, cfg.opts, cfg);
      NotStarved(own.events, Read(args[own.used..], cfg).events);
      ReadOptions(args[own.used..], tail, cfg, cfg');
      OptionsAloneFront(args, tail, cfg, cfg');
    }
  }

  /** Unless a `--` stands in front of them, the operands of a reading have operand syntax. */
  lemma {:induction false} OperandsRead(args: seq<string>, cfg: Config, cfg': Config)
    requires cfg.ordering == Permute && cfg'.ordering != ReturnInOrder && !Read(args, cfg).terminated
    ensures var z := Read(args, cfg).operands; Read(z, cfg') == Parsed([], [], z, false)
    decreases |args|
  {
    hide DecodeShort, DecodeLong, Decode, ReadElement;
    if args == [] {
    } else if IsOperand(args[0]) {
      OperandsRead(args[1..], cfg, cfg');
      var z := Read(args[1..], cfg).operands;
      assert ([args[0]] + z)[1..] == z;
    } else {
      ParseFront(args, cfg.opts, cfg);
      OperandsRead(args[Front(args, cfg.opts, cfg).used..], cfg, cfg');
    }
  }

  /** The answer `a` refuses an option for lack of its argument, and `b` is that option with the argument `x`. */
  ghost predicate FedBy(a: Event, b: Event, x: string) {
    && a.missing && a.optarg.None? && a.optopt.Some?
    && !b.missing && b.optarg == Some(x) && b.optopt.None?
    && a.optopt.value == if b.flagSet.Some? then b.flagSet.value.1 else b.code
  }

  lemma DecodeFed(element: string, text: string, tail: seq<string>, opts: string, table: Option<seq<LongOption>>)
    requires text != "" && tail != [] && Decode(element, text, [], opts, table).event.missing
    ensures var d, d' := Decode(element, text, [], opts, table), Decode(element, text, tail, opts, table);
            FedBy(d.event, d'.event, tail[0]) && d.rest == d'.rest == ""
  {
    hide Resolve, IndexOf;
  }

  /** Answers that are the same but for the last, which has been fed with `x`. */
  ghost predicate FedLast(a: seq<Event>, b: seq<Event>, x: string) {
    && 0 < |a| <= |b|
    && Answers(b[..|a| - 1]) == Answers(a[..|a| - 1])
    && FedBy(a[|a| - 1], b[|a| - 1], x)
  }

  lemma FedLastBehind(before: seq<Event>, before': seq<Event>, a: seq<Event>, b: seq<Event>, x: string)
    requires Answers(before) == Answers(before') && FedLast(a, b, x)
    ensures FedLast(before + a, before' + b, x)
  {
    hide Answers, FedBy;
    AnswersLength(before);
    AnswersLength(before');
    var k := |before| + |a| - 1;
    assert (before + a)[..k] == before + a[..|a| - 1] && (before' + b)[..k] == before' + b[..|a| - 1];
    AnswersOfBoth(before, a[..|a| - 1]);
    AnswersOfBoth(before', b[..|a| - 1]);
  }

  lemma FedLastMore(a: seq<Event>, b: seq<Event>, more: seq<Event>, x: string)
    requires FedLast(a, b, x)
    ensures FedLast(a, b + more, x)
  {
    assert (b + more)[..|a| - 1] == b[..|a| - 1];
  }

  /** An element that lacks its argument takes the next operand instead. */
  lemma {:induction false} ElementFed(element: string, text: string, tail: seq<string>, cfg: Config)
    requires text != "" && tail != []
    requires Starved(ReadElement(element, text, [], cfg.opts, cfg).events)
    ensures var r, r' := ReadElement(element, text, [], cfg.opts, cfg), ReadElement(element, text, tail, cfg.opts, cfg);
            FedLast(r.events, r'.events, tail[0])
    decreases |text|
  {
    hide Decode, Answers, FedBy, FedLast;
    var d := Decode(element, text, [], cfg.opts, cfg.table);
    var d' := Decode(element, text, tail, cfg.opts, cfg.table);
    if d.event.missing {
      DecodeFed(element, text, tail, cfg.opts, cfg.table);
      FedAlone(d.event, d'.event, tail[0]);
    } else {
      var s := ReadElement(element, d.rest, [], cfg.opts, cfg);
      StarvedLater([d.event], s.events);
      DecodeDepends(element, text, [], tail, cfg.opts, cfg.table);
      ElementFed(element, d.rest, tail, cfg);
      SameAnswer(d.event, d'.event);
      FedLastBehind([d.event], [d'.event], s.events, ReadElement(element, d.rest, tail, cfg.opts, cfg).events, tail[0]);
    }
  }

  lemma FedAlone(a: Event, b: Event, x: string)
    requires FedBy(a, b, x)
    ensures FedLast([a], [b], x)
  {
    assert [a][..0] == [b][..0];
  }

  /** A missing argument is missing at the end of the vector. */
  lemma {:induction false} StarvedAtEnd(element: string, text: string, following: seq<string>, cfg: Config)
    requires text != "" && Starved(ReadElement(element, text, following, cfg.opts, cfg).events)
    ensures following == []
    decreases |text|
  {
    hide Resolve, IndexOf;
    var d := Decode(element, text, following, cfg.opts, cfg.table);
    if d.rest != "" {
      var s := ReadElement(element, d.rest, following, cfg.opts, cfg);
      assert forall i :: 0 <= i < |s.events| ==> ([d.event] + s.events)[i + 1] == s.events[i];
      StarvedAtEnd(element, d.rest, following, cfg);
    }
  }

  lemma FrontFed(args: seq<string>, tail: seq<string>, cfg: Config, cfg': Config)
    requires cfg.ordering == Permute && cfg' == cfg.(ordering := cfg'.ordering) && tail != []
    requires args != [] && args[0] != TERMINATOR && !IsOperand(args[0])
    requires Starved(Front(args, cfg.opts, cfg).events)
    ensures FedLast(Read(args, cfg).events, Read(Read(args, cfg).options + tail, cfg').events, tail[0])
  {
    hide DecodeShort, DecodeLong, Decode, ReadElement, Parse, FedLast;
    var own := Front(args, cfg.opts, cfg);
    ParseFront(args, cfg.opts, cfg);
    var text := OptionText(args[0], cfg.table);
    StarvedAtEnd(args[0], text, args[1..], cfg);
    ElementFed(args[0], text, tail, cfg);
    ElementIgnoresOrdering(args[0], text, tail, cfg.opts, cfg, cfg');
    ParseAtEnd(args[own.used..], cfg.opts, cfg);
    var whole := Read(args, cfg).options + tail;
    assert whole == [args[0]] + tail && whole[1..] == tail;
    ParseFront(whole, cfg.opts, cfg');
    var own' := Front(whole, cfg.opts, cfg');
    FedLastMore(own.events, own'.events, Read(whole[own'.used..], cfg').events, tail[0]);
    assert own.events + [] == own.events;
  }

  lemma FedLater(args: seq<string>, tail: seq<string>, cfg: Config, cfg': Config)
    requires cfg.ordering == Permute && cfg' == cfg.(ordering := cfg'.ordering) && tail != []
    requires args != [] && args[0] != TERMINATOR && !IsOperand(args[0])
    requires var own := Front(args, cfg.opts, cfg);
             var p := Read(args[own.used..], cfg);
             !Starved(own.events) && FedLast(p.events, Read(p.options + tail, cfg').events, tail[0])
    ensures FedLast(Read(args, cfg).events, Read(Read(args, cfg).options + tail, cfg').events, tail[0])
  {
    hide Parse, Front, Answers, FedLast;
    var own := Front(args, cfg.opts, cfg);
    ParseFront(args, cfg.opts, cfg);
    var p := Read(args[own.used..], cfg);
    var whole := Read(args, cfg).options + tail;
    assert whole == args[..own.used] + (p.options + tail);
    assert whole[own.used..] == p.options + tail && whole[..own.used] == args[..own.used];
    FrontRead(args, whole, cfg.opts, cfg, cfg');
    var q, r := Read(whole, cfg'), Read(whole[own.used..], cfg');
    AnswersLength(q.events);
    AnswersLength(own.events);
    AnswersLength(r.events);
    var before := q.events[..|own.events|];
    assert q.events == before + r.events;
    AnswersOfBoth(before, r.events);
    AnswersLength(before);
    assert Answers(before) == Answers(q.events)[..|own.events|] == Answers(own.events);
    FedLastBehind(own.events, before, p.events, r.events, tail[0]);
  }

  /** Replaying a reading that lacked an argument says the same up to the option that lacked it, and feeds that
      option the first operand. */
  lemma {:induction false} ReplayFed(args: seq<string>, tail: seq<string>, cfg: Config, cfg': Config)
    requires cfg.ordering == Permute && cfg' == cfg.(ordering := cfg'.ordering)
    requires Starved(Read(args, cfg).events) && tail != []
    ensures FedLast(Read(args, cfg).events, Read(Read(args, cfg).options + tail, cfg').events, tail[0])
    decreases |args|
  {
    hide DecodeShort, DecodeLong, Decode, ReadElement, FedLast, Answers;
    if IsOperand(args[0]) {
      ReplayFed(args[1..], tail, cfg, cfg');
    } else {
      var own := Front(args, cfg.opts, cfg);
      ParseFront(args, cfg.opts, cfg);
      if Starved(own.events) {
        FrontFed(args, tail, cfg, cfg');
      } else {
        StarvedLater(own.events, Read(args[own.used..], cfg).events);
        ReplayFed(args[own.used..], tail, cfg, cfg');
        FedLater(args, tail, cfg, cfg');
      }
    }
  }

  lemma StarvedLater(a: seq<Event>, b: seq<Event>)
    requires Starved(a + b) && !Starved(a)
    ensures Starved(b)
  {
    var i :| 0 <= i < |a + b| && (a + b)[i].missing;
    assert forall j :: 0 <= j < |a| ==> (a + b)[j] == a[j] && !a[j].missing;
    assert b[i - |a|].missing;
  }

  /** Scanning the permuted vector again, permuting or requiring order, gives the same answers and moves
      nothing: exactly when no option lacked its argument or there is no operand that could fill the gap. */
  lemma Replay(args: seq<string>, cfg: Config, cfg': Config)
    requires cfg.ordering == Permute && cfg' == cfg.(ordering := cfg'.ordering) && cfg'.ordering != ReturnInOrder
    ensures var p, q := Read(args, cfg), Read(Read(args, cfg).options + Read(args, cfg).operands, cfg');
            var same := !Starved(p.events) || p.operands == [];
            && (Answers(q.events) == Answers(p.events) <==> same)
            && (same ==> q.options == p.options && q.operands == p.operands)
            && (!same ==> FedLast(p.events, q.events, p.operands[0]))
  {
    hide Parse;
    var p := Read(args, cfg);
    var q := Read(p.options + p.operands, cfg');
    if !Starved(p.events) {
      ReadOptions(args, p.operands, cfg, cfg');
      if !p.terminated {
        OperandsRead(args, cfg, cfg');
      }
    } else if p.operands == [] {
      NothingMoves(args, cfg.opts, cfg);
      RequiringOrder(args, cfg.opts, cfg);
    } else {
      ReplayFed(args, p.operands, cfg, cfg');
      var k := |p.events| - 1;
      assert Answers(p.events)[k].optarg != Answers(q.events)[k].optarg;
    }
  }

  /** An element with one letter and nothing else. */
  lemma OneLetter(element: string, following: seq<string>, opts: string, cfg: Config)
    requires |element| == 2 && element[0] == '-' && element[1] != '-' && element[1] != '\0'
    ensures var d := DecodeShort(element[1..], following, opts);
            Parse([element] + following, opts, cfg)
            == Parse(following[d.used..], cfg.opts, cfg).Behind([element] + following[..d.used]).After([d.event])
  {
    hide DecodeShort;
    var args := [element] + following;
    assert OptionText(args[0], cfg.table) == element[1..] && args[1..] == following;
    ElementEnds(element, element[1..], following, opts, cfg);
  }

  lemma LetterStarved()
    ensures DecodeShort("a", [], "a:")
            == Decoded(Event('?' as int, None, None, Some('a' as int), None, 0, true), "", 0)
    ensures DecodeShort("a", ["x"], "a:") == Decoded(Event('a' as int, Some("x"), None, None, None, 0, false), "", 1)
  {
    hide IndexOf;
    assert IndexOf("a:", 'a') == Some(0) by { IndexIs("a:", 'a', 0); }
  }

  /** `x -a` with `a:`: replaying the permuted vector turns the refused option into one with an argument. */
  lemma ReplayDiffers()
    ensures var args, cfg := ["x", "-a"], Config(Permute, "a:", None);
            var p := Read(args, cfg);
            var q := Read(p.options + p.operands, cfg);
            && p == Parsed([Event('?' as int, None, None, Some('a' as int), None, 0, true)], ["-a"], ["x"], false)
            && q == Parsed([Event('a' as int, Some("x"), None, None, None, 0, false)], ["-a", "x"], [], false)
  {
    hide DecodeShort;
    var cfg := Config(Permute, "a:", None);
    LetterStarved();
    assert "-a"[1..] == "a" && ["x", "-a"][1..] == ["-a"] + [];
    OneLetter("-a", [], "a:", cfg);
    OneLetter("-a", ["x"], "a:", cfg);
    assert ["x"][1..] == [] && ["x"][..1] == ["x"];
    ParseAtEnd([], "a:", cfg);
    assert ["-a"] + ["x"] == ["-a", "x"];
  }
}
