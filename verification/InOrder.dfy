/** Where every answer of a reading comes from, and what a run that returns operands in order reports
    (src/getopt.c:604-611), whatever option characters its first call sees. */
module InOrder {
  import opened Options
  import opened CommandLine
  import opened Readings
  import opened Scanning

  /** The origin of one answer, in front of the elements `following`: an operand that is told as it stands, or what
      is left, `text`, of an option element. */
  datatype Spot =
    | Told(operand: string, following: seq<string>)
    | OptionAt(element: string, text: string, following: seq<string>)

  /** The origins of the answers that `Parse` lists. */
  ghost function Spots(args: seq<string>, opts: string, cfg: Config): seq<Spot>
    decreases |args|, 0, 0
  {
    if args == [] || args[0] == TERMINATOR then []
    else if IsOperand(args[0]) then
      match cfg.ordering
      case Permute => Spots(args[1..], opts, cfg)
      case RequireOrder => []
      case ReturnInOrder => [Told(args[0], args[1..])] + Spots(args[1..], cfg.opts, cfg)
    else
      SpotsIn(args[0], OptionText(args[0], cfg.table), args[1..], opts, cfg)
  }

  ghost function SpotsIn(element: string, text: string, following: seq<string>, opts: string, cfg: Config): seq<Spot>
    requires text != ""
    decreases |following|, 1, |text|
  {
    var d := Decode(element, text, following, opts, cfg.table);
    [OptionAt(element, text, following)]
    + if d.rest == "" then Spots(following[d.used..], cfg.opts, cfg)
      else SpotsIn(element, d.rest, following, cfg.opts, cfg)
  }

  /** The answer `e`, given by a call that sees the option characters `opts`, comes from `spot`. */
  ghost predicate Explains(spot: Spot, e: Event, args: seq<string>, opts: string, cfg: Config) {
    match spot
    case Told(x, following) =>
      && cfg.ordering == ReturnInOrder && IsOperand(x) && x != TERMINATOR
      && |following| < |args| && args[|args| - 1 - |following|..] == [x] + following
      && e == Event(1, Some(x), None, None, None, |following|, false)
    case OptionAt(element, text, following) =>
      && !IsOperand(element) && element != TERMINATOR
      && 0 < |text| < |element| && text == element[|element| - |text|..]
      && |following| < |args| && args[|args| - 1 - |following|..] == [element] + following
      && e == Decode(element, text, following, opts, cfg.table).event
  }

  ghost predicate AllExplained(spots: seq<Spot>, events: seq<Event>, args: seq<string>, opts: string, cfg: Config) {
    && |spots| == |events|
    && forall k :: 0 <= k < |spots| ==> Explains(spots[k], events[k], args, if k == 0 then opts else cfg.opts, cfg)
  }

  lemma ExplainedBehind(spot: Spot, e: Event, args: seq<string>, n: nat, opts: string, cfg: Config)
    requires n <= |args| && Explains(spot, e, args[n..], opts, cfg)
    ensures Explains(spot, e, args, opts, cfg)
  {
    hide Decode;
    var k := |args[n..]| - 1 - |spot.following|;
    assert args[n..][k..] == args[n + k..];
  }

  lemma AllExplainedBehind(spots: seq<Spot>, events: seq<Event>, args: seq<string>, n: nat, opts: string, cfg: Config)
    requires n <= |args| && AllExplained(spots, events, args[n..], opts, cfg)
    ensures AllExplained(spots, events, args, opts, cfg)
  {
    hide Explains;
    forall k | 0 <= k < |spots|
      ensures Explains(spots[k], events[k], args, if k == 0 then opts else cfg.opts, cfg)
    {
      ExplainedBehind(spots[k], events[k], args, n, if k == 0 then opts else cfg.opts, cfg);
    }
  }

  lemma ExplainedNext(spot: Spot, e: Event, spots: seq<Spot>, events: seq<Event>, args: seq<string>, opts: string,
                      cfg: Config)
    requires Explains(spot, e, args, opts, cfg) && AllExplained(spots, events, args, cfg.opts, cfg)
    ensures AllExplained([spot] + spots, [e] + events, args, opts, cfg)
  {
    hide Explains;
  }

  /** `a` stands in front of `b`: in an earlier element, or earlier in the same one. */
  predicate Earlier(a: Spot, b: Spot) {
    || |b.following| < |a.following|
    || (a.OptionAt? && b.OptionAt? && |a.following| == |b.following| && |b.text| < |a.text|)
  }

  ghost predicate Ascending(spots: seq<Spot>) {
    forall i, j :: 0 <= i < j < |spots| ==> Earlier(spots[i], spots[j])
  }

  ghost predicate AllLater(spot: Spot, spots: seq<Spot>) {
    forall i :: 0 <= i < |spots| ==> Earlier(spot, spots[i])
  }

  /** All spots lie among the last `n` elements. */
  ghost predicate AllWithin(spots: seq<Spot>, n: nat) {
    forall i :: 0 <= i < |spots| ==> |spots[i].following| < n
  }

  lemma AscendingNext(spot: Spot, spots: seq<Spot>)
    requires AllLater(spot, spots) && Ascending(spots)
    ensures Ascending([spot] + spots)
  {
  }

  /** The spots of a reading come in the order of the vector, no two at the same place. */
  lemma {:induction false} SpotsAscend(args: seq<string>, opts: string, cfg: Config)
    ensures Ascending(Spots(args, opts, cfg)) && AllWithin(Spots(args, opts, cfg), |args|)
    decreases |args|, 0, 0
  {
    hide DecodeShort, DecodeLong, Decode, Earlier;
    if args == [] || args[0] == TERMINATOR {
    } else if !IsOperand(args[0]) {
      SpotsInAscend(args[0], OptionText(args[0], cfg.table), args[1..], opts, cfg);
    } else if cfg.ordering == Permute {
      SpotsAscend(args[1..], opts, cfg);
    } else if cfg.ordering == ReturnInOrder {
      SpotsAscend(args[1..], cfg.opts, cfg);
      var spot := Told(args[0], args[1..]);
      WithinIsLater(spot, Spots(args[1..], cfg.opts, cfg));
      AscendingNext(spot, Spots(args[1..], cfg.opts, cfg));
    }
  }

  lemma WithinIsLater(spot: Spot, spots: seq<Spot>)
    requires AllWithin(spots, |spot.following|)
    ensures AllLater(spot, spots)
  {
  }

  /** Inside an element: nothing comes before what is left of it. */
  lemma {:induction false} SpotsInAscend(element: string, text: string, following: seq<string>, opts: string,
                                         cfg: Config)
    requires text != ""
    ensures var spots := SpotsIn(element, text, following, opts, cfg);
            && Ascending(spots) && AllWithin(spots, |following| + 1)
            && forall t :: |t| > |text| ==> AllLater(OptionAt(element, t, following), spots)
    decreases |following|, 1, |text|
  {
    hide DecodeShort, DecodeLong, Decode, Spots, Ascending;
    var d := Decode(element, text, following, opts, cfg.table);
    var spot := OptionAt(element, text, following);
    var later := if d.rest == "" then Spots(following[d.used..], cfg.opts, cfg)
                 else SpotsIn(element, d.rest, following, cfg.opts, cfg);
    if d.rest == "" {
      SpotsAscend(following[d.used..], cfg.opts, cfg);
      WithinIsLater(spot, later);
    } else {
      SpotsInAscend(element, d.rest, following, cfg.opts, cfg);
    }
    AscendingNext(spot, later);
  }

  /** Every answer is explained by its spot: each operand told and each option decoded is found in the vector, in
      the order of the vector and each at a place of its own. */
  lemma {:induction false} SpotsExplain(args: seq<string>, opts: string, cfg: Config)
    ensures AllExplained(Spots(args, opts, cfg), Parse(args, opts, cfg).events, args, opts, cfg)
    ensures Ascending(Spots(args, opts, cfg))
    decreases |args|, 0, 0
  {
    hide DecodeShort, DecodeLong, Decode, ReadElement, Explains, Ascending, AllWithin;
    SpotsAscend(args, opts, cfg);
    if args == [] || args[0] == TERMINATOR {
    } else if !IsOperand(args[0]) {
      ParseAtOption(args, opts, cfg);
      SpotsInExplain(args, args[0], OptionText(args[0], cfg.table), args[1..], opts, cfg);
    } else if cfg.ordering == Permute {
      SpotsExplain(args[1..], opts, cfg);
      AllExplainedBehind(Spots(args[1..], opts, cfg), Parse(args[1..], opts, cfg).events, args, 1, opts, cfg);
    } else if cfg.ordering == ReturnInOrder {
      SpotsExplain(args[1..], cfg.opts, cfg);
      var e := Event(1, Some(args[0]), None, None, None, |args| - 1, false);
      var q := Read(args[1..], cfg);
      AllExplainedBehind(Spots(args[1..], cfg.opts, cfg), q.events, args, 1, cfg.opts, cfg);
      ToldExplains(args, e, opts, cfg);
      ExplainedNext(Told(args[0], args[1..]), e, Spots(args[1..], cfg.opts, cfg), q.events, args, opts, cfg);
    }
  }

  lemma ToldExplains(args: seq<string>, e: Event, opts: string, cfg: Config)
    requires cfg.ordering == ReturnInOrder && args != [] && IsOperand(args[0])
    requires e == Event(1, Some(args[0]), None, None, None, |args| - 1, false)
    ensures Explains(Told(args[0], args[1..]), e, args, opts, cfg)
  {
  }

  lemma {:induction false} SpotsInExplain(args: seq<string>, element: string, text: string, following: seq<string>,
                                          opts: string, cfg: Config)
    requires !IsOperand(element) && element != TERMINATOR
    requires 0 < |text| < |element| && text == element[|element| - |text|..]
    requires |following| < |args| && args[|args| - 1 - |following|..] == [element] + following
    ensures AllExplained(SpotsIn(element, text, following, opts, cfg),
                         ParseElement(element, text, following, opts, cfg).events, args, opts, cfg)
    decreases |following|, 1, |text|
  {
    hide DecodeShort, DecodeLong, Decode, ReadElement, Explains, Parse, ParseElement, IsOperand;
    var d := Decode(element, text, following, opts, cfg.table);
    var spot := OptionAt(element, text, following);
    assert Explains(spot, d.event, args, opts, cfg) by { OptionExplains(spot, args, opts, cfg); }
    if d.rest == "" {
      ElementEnds(element, text, following, opts, cfg);
      var rest := following[d.used..];
      SpotsExplain(rest, cfg.opts, cfg);
      assert args[|args| - |rest|..] == args[|args| - 1 - |following|..][1 + d.used..] == rest;
      AllExplainedBehind(Spots(rest, cfg.opts, cfg), Read(rest, cfg).events, args, |args| - |rest|, cfg.opts, cfg);
      ExplainedNext(spot, d.event, Spots(rest, cfg.opts, cfg), Read(rest, cfg).events, args, opts, cfg);
    } else {
      ElementContinues(element, text, following, opts, cfg);
      assert d.rest == element[|element| - |d.rest|..];
      SpotsInExplain(args, element, d.rest, following, cfg.opts, cfg);
      ExplainedNext(spot, d.event, SpotsIn(element, d.rest, following, cfg.opts, cfg),
                    ParseElement(element, d.rest, following, cfg.opts, cfg).events, args, opts, cfg);
    }
  }

  lemma OptionExplains(spot: Spot, args: seq<string>, opts: string, cfg: Config)
    requires spot.OptionAt? && !IsOperand(spot.element) && spot.element != TERMINATOR
    requires 0 < |spot.text| < |spot.element| && spot.text == spot.element[|spot.element| - |spot.text|..]
    requires |spot.following| < |args| && args[|args| - 1 - |spot.following|..] == [spot.element] + spot.following
    ensures Explains(spot, Decode(spot.element, spot.text, spot.following, opts, cfg.table).event, args, opts, cfg)
  {
    hide Decode;
  }

  /** The operands that are told, in order. */
  function ToldIn(spots: seq<Spot>): seq<string> {
    if spots == [] then []
    else (if spots[0].Told? then [spots[0].operand] else []) + ToldIn(spots[1..])
  }

  /** The elements that belong to options: option elements, their separate arguments, and a terminating `--`. */
  ghost function Own(args: seq<string>, opts: string, cfg: Config): seq<string>
    decreases |args|
  {
    if args == [] then []
    else if args[0] == TERMINATOR then [TERMINATOR]
    else if IsOperand(args[0]) then
      match cfg.ordering
      case Permute => Own(args[1..], opts, cfg)
      case RequireOrder => []
      case ReturnInOrder => Own(args[1..], cfg.opts, cfg)
    else
      var k := Front(args, opts, cfg).used;
      args[..k] + Own(args[k..], cfg.opts, cfg)
  }

  lemma {:induction false} NothingToldInside(element: string, text: string, following: seq<string>, opts: string,
                                             cfg: Config)
    requires text != ""
    ensures var k := ReadElement(element, text, following, opts, cfg).used;
            ToldIn(SpotsIn(element, text, following, opts, cfg)) == ToldIn(Spots(following[k..], cfg.opts, cfg))
    decreases |text|
  {
    hide Decode, Spots;
    var d := Decode(element, text, following, opts, cfg.table);
    var spot := OptionAt(element, text, following);
    if d.rest == "" {
      assert ([spot] + Spots(following[d.used..], cfg.opts, cfg))[1..] == Spots(following[d.used..], cfg.opts, cfg);
    } else {
      var inside := SpotsIn(element, d.rest, following, cfg.opts, cfg);
      assert ([spot] + inside)[1..] == inside;
      NothingToldInside(element, d.rest, following, cfg.opts, cfg);
    }
  }

  lemma NothingToldInFront(args: seq<string>, opts: string, cfg: Config)
    requires args != [] && args[0] != TERMINATOR && !IsOperand(args[0])
    ensures ToldIn(Spots(args, opts, cfg)) == ToldIn(Spots(args[Front(args, opts, cfg).used..], cfg.opts, cfg))
  {
    hide DecodeShort, DecodeLong, Decode, ReadElement, SpotsIn, ToldIn;
    var text := OptionText(args[0], cfg.table);
    NothingToldInside(args[0], text, args[1..], opts, cfg);
    var k := ReadElement(args[0], text, args[1..], opts, cfg).used;
    assert args[1..][k..] == args[1 + k..];
  }

  /** What returning in order tells of `args`: the operands, in order, which together with the elements of the
      options make up the vector; what is left over stands behind a `--`. */
  ghost predicate Tells(args: seq<string>, opts: string, cfg: Config) {
    var p, told, own := Parse(args, opts, cfg), ToldIn(Spots(args, opts, cfg)), Own(args, opts, cfg);
    && Merges(args, own, told + p.operands)
    && Merges(p.options, own, told)
    && (if p.terminated then |p.operands| < |args| && args[|args| - 1 - |p.operands|] == TERMINATOR
        else p.operands == [])
  }

  lemma TellsFront(args: seq<string>, opts: string, cfg: Config)
    requires cfg.ordering == ReturnInOrder && args != [] && args[0] != TERMINATOR && !IsOperand(args[0])
    requires Tells(args[Front(args, opts, cfg).used..], cfg.opts, cfg)
    ensures Tells(args, opts, cfg)
  {
    hide Parse, Front, Spots, ToldIn, Merges;
    var k := Front(args, opts, cfg).used;
    var rest := args[k..];
    ParseFront(args, opts, cfg);
    NothingToldInFront(args, opts, cfg);
    var p, told, own := Read(rest, cfg), ToldIn(Spots(rest, cfg.opts, cfg)), Own(rest, cfg.opts, cfg);
    MergesPrefix(args[..k], rest, own, told + p.operands);
    MergesPrefix(args[..k], p.options, own, told);
    assert args == args[..k] + rest;
  }

  lemma TellsOperand(args: seq<string>, opts: string, cfg: Config)
    requires cfg.ordering == ReturnInOrder && args != [] && IsOperand(args[0])
    requires Tells(args[1..], cfg.opts, cfg)
    ensures Tells(args, opts, cfg)
  {
    hide Merges, ToldIn;
    var rest := args[1..];
    var p, told, own := Read(rest, cfg), ToldIn(Spots(rest, cfg.opts, cfg)), Own(rest, cfg.opts, cfg);
    var e := Event(1, Some(args[0]), None, None, None, |args| - 1, false);
    assert Parse(args, opts, cfg) == p.Behind([args[0]]).After([e]);
    ToldNext(args[0], rest, Spots(rest, cfg.opts, cfg));
    assert args == [args[0]] + rest && [args[0]] + (told + p.operands) == [args[0]] + told + p.operands;
    MergesBehind([args[0]], rest, own, told + p.operands);
    MergesBehind([args[0]], p.options, own, told);
  }

  lemma ToldNext(x: string, following: seq<string>, spots: seq<Spot>)
    ensures ToldIn([Told(x, following)] + spots) == [x] + ToldIn(spots)
  {
    assert ([Told(x, following)] + spots)[1..] == spots;
  }

  lemma MergesBehind<T(!new)>(p: seq<T>, xs: seq<T>, ys: seq<T>, zs: seq<T>)
    requires Merges(xs, ys, zs)
    ensures Merges(p + xs, ys, p + zs)
  {
    MergesSwap(xs, ys, zs);
    MergesPrefix(p, xs, zs, ys);
    MergesSwap(p + xs, p + zs, ys);
  }

  /** Returning in order tells every operand in front of a `--` and leaves over exactly those behind it, for all
      option characters: those of the call that initializes the scan and those of the later ones. */
  lemma {:induction false} ReturningInOrder(args: seq<string>, opts: string, cfg: Config)
    requires cfg.ordering == ReturnInOrder
    ensures Tells(args, opts, cfg)
    decreases |args|
  {
    hide DecodeShort, DecodeLong, Decode, ReadElement, Tells, Front, Merges;
    if args == [] || args[0] == TERMINATOR {
      assert Tells(args, opts, cfg) by { NothingTold(args, opts, cfg); }
    } else if IsOperand(args[0]) {
      ReturningInOrder(args[1..], cfg.opts, cfg);
      TellsOperand(args, opts, cfg);
    } else {
      ReturningInOrder(args[Front(args, opts, cfg).used..], cfg.opts, cfg);
      TellsFront(args, opts, cfg);
    }
  }

  lemma NothingTold(args: seq<string>, opts: string, cfg: Config)
    requires args == [] || args[0] == TERMINATOR
    ensures Tells(args, opts, cfg)
  {
    if args != [] {
      ParseAtTerminator(args, opts, cfg);
      MergesAll(args[1..]);
      MergesPrefix([TERMINATOR], args[1..], [], args[1..]);
      assert args == [TERMINATOR] + args[1..] && [TERMINATOR] + [] == [TERMINATOR] && [] + args[1..] == args[1..];
      MergesPrefix([TERMINATOR], [], [], []);
    }
  }

  /** In the other orderings the elements of the options are the options of the reading. */
  lemma {:induction false} OwnIsOptions(args: seq<string>, opts: string, cfg: Config)
    requires cfg.ordering != ReturnInOrder
    ensures Own(args, opts, cfg) == Parse(args, opts, cfg).options
    decreases |args|
  {
    hide DecodeShort, DecodeLong, Decode, ReadElement, Front;
    if args == [] || args[0] == TERMINATOR {
    } else if !IsOperand(args[0]) {
      ParseFront(args, opts, cfg);
      OwnIsOptions(args[Front(args, opts, cfg).used..], cfg.opts, cfg);
    } else if cfg.ordering == Permute {
      OwnIsOptions(args[1..], opts, cfg);
    }
  }

  /** The answers that options give, without those that tell operands. */
  function AtOptions(events: seq<Event>, spots: seq<Spot>): seq<Event>
    requires |events| == |spots|
    decreases |events|
  {
    if events == [] then []
    else (if spots[0].OptionAt? then [events[0]] else []) + AtOptions(events[1..], spots[1..])
  }

  lemma AtOptionsNext(e: Event, spot: Spot, events: seq<Event>, spots: seq<Spot>)
    requires |events| == |spots|
    ensures AtOptions([e] + events, [spot] + spots)
            == (if spot.OptionAt? then [e] else []) + AtOptions(events, spots)
  {
    assert ([e] + events)[1..] == events && ([spot] + spots)[1..] == spots;
  }

  lemma SpotsAligned(args: seq<string>, opts: string, cfg: Config)
    ensures |Spots(args, opts, cfg)| == |Parse(args, opts, cfg).events|
  {
    hide Spots, Parse, Explains;
    SpotsExplain(args, opts, cfg);
  }

  lemma {:induction false} OptionsInside(element: string, text: string, following: seq<string>, opts: string,
                                         cfg: Config)
    requires text != ""
    ensures var own := ReadElement(element, text, following, opts, cfg);
            var p := ParseElement(element, text, following, opts, cfg);
            var spots := SpotsIn(element, text, following, opts, cfg);
            var rest := following[own.used..];
            && |p.events| == |spots| && |Read(rest, cfg).events| == |Spots(rest, cfg.opts, cfg)|
            && AtOptions(p.events, spots)
               == own.events + AtOptions(Read(rest, cfg).events, Spots(rest, cfg.opts, cfg))
    decreases |text|
  {
    hide Decode, Spots, Parse, ParseElement, AtOptions;
    var d := Decode(element, text, following, opts, cfg.table);
    var spot := OptionAt(element, text, following);
    if d.rest == "" {
      ElementEnds(element, text, following, opts, cfg);
      var rest := following[d.used..];
      SpotsAligned(rest, cfg.opts, cfg);
      AtOptionsNext(d.event, spot, Read(rest, cfg).events, Spots(rest, cfg.opts, cfg));
    } else {
      ElementContinues(element, text, following, opts, cfg);
      OptionsInside(element, d.rest, following, cfg.opts, cfg);
      var inside, spots := ParseElement(element, d.rest, following, cfg.opts, cfg),
                           SpotsIn(element, d.rest, following, cfg.opts, cfg);
      AtOptionsNext(d.event, spot, inside.events, spots);
      var own := ReadElement(element, d.rest, following, cfg.opts, cfg);
      var rest := following[own.used..];
      var later := AtOptions(Read(rest, cfg).events, Spots(rest, cfg.opts, cfg));
      assert [d.event] + (own.events + later) == [d.event] + own.events + later;
    }
  }

  lemma OptionsInFront(args: seq<string>, opts: string, cfg: Config)
    requires args != [] && args[0] != TERMINATOR && !IsOperand(args[0])
    ensures var own := Front(args, opts, cfg);
            var p, spots := Parse(args, opts, cfg), Spots(args, opts, cfg);
            var rest := args[own.used..];
            && |p.events| == |spots| && |Read(rest, cfg).events| == |Spots(rest, cfg.opts, cfg)|
            && AtOptions(p.events, spots)
               == own.events + AtOptions(Read(rest, cfg).events, Spots(rest, cfg.opts, cfg))
  {
    hide DecodeShort, DecodeLong, Decode, ReadElement, SpotsIn, ParseElement, AtOptions;
    var text := OptionText(args[0], cfg.table);
    OptionsInside(args[0], text, args[1..], opts, cfg);
    var k := ReadElement(args[0], text, args[1..], opts, cfg).used;
    assert args[1..][k..] == args[1 + k..];
  }

  /** For option characters that are the same to all calls: returning in order, the options say what they say
      when permuting, and the operands told and left over are those that permuting collects. */
  ghost predicate OptionsAmongTold(args: seq<string>, cfg: Config) {
    var inOrder := cfg.(ordering := ReturnInOrder);
    var p, q, spots := Read(args, cfg), Read(args, inOrder), Spots(args, cfg.opts, inOrder);
    && |q.events| == |spots|
    && AtOptions(q.events, spots) == p.events
    && ToldIn(spots) + q.operands == p.operands
    && Own(args, cfg.opts, inOrder) == p.options && q.terminated == p.terminated
  }

  lemma AmongToldFront(args: seq<string>, cfg: Config)
    requires cfg.ordering == Permute && args != [] && args[0] != TERMINATOR && !IsOperand(args[0])
    requires OptionsAmongTold(args[Front(args, cfg.opts, cfg).used..], cfg)
    ensures OptionsAmongTold(args, cfg)
  {
    hide DecodeShort, DecodeLong, Decode, ReadElement, Parse, Spots, ToldIn, AtOptions;
    var inOrder := cfg.(ordering := ReturnInOrder);
    ElementIgnoresOrdering(args[0], OptionText(args[0], cfg.table), args[1..], cfg.opts, cfg, inOrder);
    ParseFront(args, cfg.opts, cfg);
    ParseFront(args, cfg.opts, inOrder);
    NothingToldInFront(args, cfg.opts, inOrder);
    OptionsInFront(args, cfg.opts, inOrder);
  }

  lemma AmongToldOperand(args: seq<string>, cfg: Config)
    requires cfg.ordering == Permute && args != [] && IsOperand(args[0]) && OptionsAmongTold(args[1..], cfg)
    ensures OptionsAmongTold(args, cfg)
  {
    hide ToldIn, AtOptions;
    var inOrder := cfg.(ordering := ReturnInOrder);
    var q, spots := Read(args[1..], inOrder), Spots(args[1..], cfg.opts, inOrder);
    var e := Event(1, Some(args[0]), None, None, None, |args| - 1, false);
    assert Read(args, inOrder) == q.Behind([args[0]]).After([e]);
    assert Read(args, cfg) == Read(args[1..], cfg).Passing([args[0]]);
    AtOptionsNext(e, Told(args[0], args[1..]), q.events, spots);
    ToldNext(args[0], args[1..], spots);
    assert [args[0]] + (ToldIn(spots) + q.operands) == [args[0]] + ToldIn(spots) + q.operands;
  }

  lemma {:induction false} InOrderIsPermuting(args: seq<string>, cfg: Config)
    requires cfg.ordering == Permute
    ensures OptionsAmongTold(args, cfg)
    decreases |args|
  {
    hide DecodeShort, DecodeLong, Decode, ReadElement, OptionsAmongTold;
    if args == [] || args[0] == TERMINATOR {
      assert OptionsAmongTold(args, cfg) by { NoneAmongTold(args, cfg); }
    } else if IsOperand(args[0]) {
      InOrderIsPermuting(args[1..], cfg);
      AmongToldOperand(args, cfg);
    } else {
      InOrderIsPermuting(args[Front(args, cfg.opts, cfg).used..], cfg);
      AmongToldFront(args, cfg);
    }
  }

  lemma NoneAmongTold(args: seq<string>, cfg: Config)
    requires args == [] || args[0] == TERMINATOR
    ensures OptionsAmongTold(args, cfg)
  {
    var p := Read(args, cfg);
    assert [] + p.operands == p.operands;
  }

  /** A caller's loop over `args` that has received `replies` and left the scanner in state `s`: every operand
      came as the result 1 with its text as argument, in order; the vector is not changed; and only a `--` stops
      the scan in front of the end. */
  ghost predicate ToldInOrder(args: seq<string>, opts: string, cfg: Config, replies: seq<Reply>, s: Scan) {
    var spots := Spots(args, opts, cfg);
    && |s.argv| == |args| + 1 && s.argv[1..] == args && |replies| <= |spots|
    && (forall k :: 0 <= k < |replies| && spots[k].Told? ==>
          && replies[k].code == 1 && replies[k].optarg == Some(spots[k].operand)
          && 1 < replies[k].optind <= |s.argv| && s.argv[replies[k].optind - 1] == spots[k].operand)
    && (|replies| == |spots| ==>
          && 1 <= s.optind <= |s.argv|
          && Merges(args, Own(args, opts, cfg), ToldIn(spots) + s.argv[s.optind..])
          && (s.optind != |s.argv| ==> s.argv[s.optind - 1] == TERMINATOR))
  }

  lemma RunTells(argv: seq<string>, opts: string, cfg: Config, replies: seq<Reply>, s: Scan)
    requires argv != [] && cfg.ordering == ReturnInOrder && s.argv == argv
    requires Completed(Parse(argv[1..], opts, cfg).Behind([argv[0]]), replies, s)
    ensures ToldInOrder(argv[1..], opts, cfg, replies, s)
  {
    hide Parse, Merges, Spots, ToldIn, Own, Decode;
    var args := argv[1..];
    var p, spots := Parse(args, opts, cfg), Spots(args, opts, cfg);
    SpotsExplain(args, opts, cfg);
    ReturningInOrder(args, opts, cfg);
    forall k | 0 <= k < |replies| && spots[k].Told?
      ensures replies[k].code == 1 && replies[k].optarg == Some(spots[k].operand)
      ensures 1 < replies[k].optind <= |s.argv| && s.argv[replies[k].optind - 1] == spots[k].operand
    {
      assert Explains(spots[k], p.events[k], args, if k == 0 then opts else cfg.opts, cfg);
    }
    if |replies| == |spots| {
      assert s.argv[s.optind..] == p.operands;
    }
  }
}
