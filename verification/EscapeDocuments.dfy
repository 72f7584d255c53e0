/** Documents made of text and complete control functions: the C0 and C1 sets of ECMA-48 (sections 5.2 and 5.3),
    control sequences (section 5.4), and control strings (section 5.6) other than SOS, with OSC also ended by BEL.
    The filter keeps the text and, from inside of control functions, exactly the bytes 0x07-0x0D. All bytes are
    given by number here, whatever names the filter uses. */
module EscapeDocuments {
  import opened EscapeFilter

  datatype Opener = OpenDcs | OpenOsc | OpenPm | OpenApc

  type c1byte = b: byte | 0x80 <= b < 0xA0 witness 0x80

  /** `eight` chooses the one-byte form of a C1 function over ESC and a byte of the range 0x40-0x5F. */
  datatype Piece =
    | Text(bytes: seq<byte>)
    | C0(b: byte)
    | C1(eight: bool, c1: c1byte)
    | ControlSequence(eight: bool, params: seq<byte>, final: byte)
    | ControlString(eight: bool, opener: Opener, body: seq<byte>)
    | BelString(eight: bool, body: seq<byte>)
    | Escape(final: byte)
    | Announced(b: byte, next: byte)

  const ST: byte := 0x9C

  function Code(opener: Opener): byte {
    match opener
    case OpenDcs => 0x90
    case OpenOsc => 0x9D
    case OpenPm => 0x9E
    case OpenApc => 0x9F
  }

  function Introducer(eight: bool, c1: byte): seq<byte>
    requires 0x40 <= c1
  {
    if eight then [c1] else [0x1B, c1 - 0x40]
  }

  /** The C1 functions that open a control sequence or a control string. */
  predicate Opens(c1: byte) {
    c1 == 0x90 || c1 == 0x9B || c1 == 0x9D || c1 == 0x9E || c1 == 0x9F
  }

  /** Nothing that leaves or restarts a control function from within, whatever else it holds. */
  ghost predicate Uninterrupted(s: seq<byte>) {
    forall i :: 0 <= i < |s| ==> s[i] != 0x18 && s[i] != 0x1A && s[i] != 0x1B && !Opens(s[i])
  }

  /** The bytes that end a control sequence. */
  predicate Ends(b: byte) { 0x40 <= b <= 0x7E }

  ghost predicate SomeFinal(s: seq<byte>) {
    exists i :: 0 <= i < |s| && Ends(s[i])
  }

  /** The bytes 0x07-0x0D: BEL and the format effectors. */
  predicate IsEffector(b: byte) { 0x07 <= b <= 0x0D }

  function Effectors(s: seq<byte>): seq<byte> {
    if s == [] then [] else (if IsEffector(s[0]) then [s[0]] else []) + Effectors(s[1..])
  }

  /** ESC and this byte, which is not of the C1 set, are a complete escape sequence to the filter. */
  predicate Complete(final: byte) {
    (0x20 <= final < 0x40 && !Announces(final)) || 0x60 <= final <= 0x7F || 0xA0 <= final
  }

  /** Space and `# ( ) * +`, behind which one more byte belongs to the sequence. */
  predicate Announces(b: byte) {
    b == 0x20 || b == 0x23 || 0x28 <= b <= 0x2B
  }

  ghost predicate AllShown(s: seq<byte>) {
    forall i :: 0 <= i < |s| ==> 0x07 <= s[i] <= 0x0D || 0x20 <= s[i] <= 0x7F || 0xA0 <= s[i]
  }

  ghost predicate WellFormed(p: Piece) {
    match p
    case Text(bytes) => AllShown(bytes)
    case C0(b) => b < 0x20 && b != 0x1B && !IsEffector(b)
    case C1(_, c1) => !Opens(c1)
    case ControlSequence(_, params, final) => Uninterrupted(params) && !SomeFinal(params) && Ends(final)
    case ControlString(_, opener, body) => Uninterrupted(body) && (opener.OpenOsc? ==> 0x07 !in body)
    case BelString(_, body) => Uninterrupted(body) && 0x07 !in body && SomeFinal(body)
    case Escape(final) => Complete(final)
    case Announced(b, _) => Announces(b)
  }

  function Bytes(p: Piece): seq<byte> {
    match p
    case Text(bytes) => bytes
    case C0(b) => [b]
    case C1(eight, c1) => Introducer(eight, c1)
    case ControlSequence(eight, params, final) => Introducer(eight, 0x9B) + (params + [final])
    case ControlString(eight, opener, body) => Introducer(eight, Code(opener)) + (body + [0x1B, 0x5C])
    case BelString(eight, body) => Introducer(eight, 0x9D) + (body + [0x07])
    case Escape(final) => [0x1B, final]
    case Announced(b, next) => [0x1B, b, next]
  }

  function TextOf(p: Piece): seq<byte> {
    if p.Text? then p.bytes else []
  }

  /** What a piece has between its introducer and its end. */
  function Inner(p: Piece): seq<byte> {
    match p
    case ControlSequence(_, params, _) => params
    case ControlString(_, _, body) => body
    case BelString(_, body) => body
    case _ => []
  }

  ghost predicate AllWellFormed(doc: seq<Piece>) {
    forall i :: 0 <= i < |doc| ==> WellFormed(doc[i])
  }

  function AllBytes(doc: seq<Piece>): seq<byte> {
    if doc == [] then [] else Bytes(doc[0]) + AllBytes(doc[1..])
  }

  function AllText(doc: seq<Piece>): seq<byte> {
    if doc == [] then [] else TextOf(doc[0]) + AllText(doc[1..])
  }

  /** The text, with the effectors that control functions hold where these stand. */
  function AllKept(doc: seq<Piece>): seq<byte> {
    if doc == [] then [] else TextOf(doc[0]) + Effectors(Inner(doc[0])) + AllKept(doc[1..])
  }

  /** The state that a C1 introducer leads to. */
  function Opened(c1: byte): State {
    if c1 == 0x9B then Csi else if c1 == 0x9D then Osc else Dcs
  }

  /** An introducer opens its function anew in every state but the one that drops the next byte. */
  lemma Introduced(vt: State, eight: bool, c1: byte)
    requires vt != DropOne && Opens(c1)
    ensures Filter(vt, Introducer(eight, c1)) == Filtered(Opened(c1), [])
  {
    FilterTwo(vt, 0x1B, c1 - 0x40);
    FilterOne(vt, c1);
  }

  lemma FilterOne(vt: State, a: byte)
    ensures Filter(vt, [a]) == Step(vt, a)
  {
    hide Step;
    assert [a][1..] == [];
  }

  lemma FilterTwo(vt: State, a: byte, b: byte)
    ensures var f := Step(vt, a);
            var g := Step(f.state, b);
            Filter(vt, [a, b]) == Filtered(g.state, f.out + g.out)
  {
    hide Step;
    assert [a, b] == [a] + [b];
    FilterAppend(vt, [a], [b]);
    FilterOne(vt, a);
    FilterOne(Step(vt, a).state, b);
  }

  /** Where the bytes inside of a control function lead that do not interrupt it. */
  function Inside(vt: State, final: bool): State {
    match vt
    case Dcs => if final then DcsString else Dcs
    case Osc => if final then OscString else Osc
    case _ => vt
  }

  predicate StaysIn(vt: State, b: byte) {
    && vt in {Csi, Dcs, DcsString, Osc, OscString}
    && b != 0x18 && b != 0x1A && b != 0x1B && !Opens(b)
    && (vt == Csi ==> !Ends(b)) && (vt in {Osc, OscString} ==> b != 0x07)
  }

  lemma StepInside(vt: State, b: byte)
    requires StaysIn(vt, b)
    ensures Step(vt, b) == Filtered(Inside(vt, Ends(b)), if IsEffector(b) then [b] else [])
  {
  }

  lemma FinalNext(s: seq<byte>)
    requires s != []
    ensures SomeFinal(s) <==> Ends(s[0]) || SomeFinal(s[1..])
  {
    hide Ends;
    if SomeFinal(s) && !Ends(s[0]) {
      var i :| 0 <= i < |s| && Ends(s[i]);
      assert Ends(s[1..][i - 1]);
    }
    if SomeFinal(s[1..]) {
      var i :| 0 <= i < |s[1..]| && Ends(s[1..][i]);
      assert Ends(s[i + 1]);
    }
  }

  lemma InsideTwice(vt: State, first: bool, later: bool)
    ensures Inside(Inside(vt, first), later) == Inside(vt, first || later)
    ensures Inside(vt, first) == Csi <==> vt == Csi
    ensures Inside(vt, first) in {Osc, OscString} <==> vt in {Osc, OscString}
    ensures vt in {Csi, Dcs, DcsString, Osc, OscString} ==> Inside(vt, first) in {Csi, Dcs, DcsString, Osc, OscString}
  {
  }

  lemma {:induction false} BodyRead(vt: State, body: seq<byte>)
    requires vt in {Csi, Dcs, DcsString, Osc, OscString} && Uninterrupted(body)
    requires (vt == Csi ==> !SomeFinal(body)) && (vt in {Osc, OscString} ==> 0x07 !in body)
    ensures Filter(vt, body) == Filtered(Inside(vt, SomeFinal(body)), Effectors(body))
    decreases |body|
  {
    hide Step, Ends, IsEffector, Opens, Inside, SomeFinal;
    if body == [] {
      assert Filter(vt, body) == Filtered(Inside(vt, SomeFinal(body)), Effectors(body)) by { EmptyBody(vt); }
    } else {
      FinalNext(body);
      assert StaysIn(vt, body[0]);
      StepInside(vt, body[0]);
      InsideTwice(vt, Ends(body[0]), SomeFinal(body[1..]));
      assert forall i :: 0 <= i < |body| - 1 ==> body[1..][i] == body[i + 1];
      BodyRead(Inside(vt, Ends(body[0])), body[1..]);
    }
  }

  lemma EmptyBody(vt: State)
    ensures Filter(vt, []) == Filtered(Inside(vt, SomeFinal([])), Effectors([]))
  {
  }

  /** An opened control function with what is inside of it and its end. */
  lemma Closed(vt: State, eight: bool, c1: byte, body: seq<byte>, end: seq<byte>)
    requires vt != DropOne && Opens(c1) && Uninterrupted(body)
    requires (c1 == 0x9B ==> !SomeFinal(body)) && (c1 == 0x9D ==> 0x07 !in body)
    ensures var g := Filter(Inside(Opened(c1), SomeFinal(body)), end);
            Filter(vt, Introducer(eight, c1) + (body + end)) == Filtered(g.state, Effectors(body) + g.out)
  {
    hide Step, Filter, Effectors, SomeFinal, Uninterrupted;
    var intro := Introducer(eight, c1);
    Introduced(vt, eight, c1);
    FilterAppend(vt, intro, body + end);
    BodyRead(Opened(c1), body);
    FilterAppend(Opened(c1), body, end);
    var g := Filter(Inside(Opened(c1), SomeFinal(body)), end);
    assert [] + (Effectors(body) + g.out) == Effectors(body) + g.out;
  }

  lemma Endings(vt: State, b: byte)
    ensures Ends(b) ==> Step(Csi, b) == Filtered(Normal, [])
    ensures vt != DropOne ==> Step(vt, 0x1B) == Filtered(Esc, [])
    ensures Step(Esc, 0x5C) == Filtered(Normal, []) && Step(OscString, 0x07) == Filtered(Normal, [])
    ensures Step(Osc, 0x07) == Filtered(Osc, [0x07])
    ensures Complete(b) ==> Step(Esc, b) == Filtered(Normal, [])
    ensures Announces(b) ==> Step(Esc, b) == Filtered(DropOne, [])
    ensures Step(DropOne, b) == Filtered(Normal, [])
  {
  }

  lemma SetErased(p: Piece)
    requires WellFormed(p) && (p.C0? || p.C1?)
    ensures Filter(Normal, Bytes(p)) == Filtered(Normal, [])
  {
    match p
    case C0(b) =>
      FilterOne(Normal, b);
    case C1(eight, c1) =>
      FilterOne(Normal, c1);
      FilterTwo(Normal, 0x1B, c1 - 0x40);
  }

  lemma FunctionRead(p: Piece)
    requires WellFormed(p) && (p.ControlSequence? || p.ControlString? || p.BelString?)
    ensures Filter(Normal, Bytes(p)) == Filtered(Normal, Effectors(Inner(p)))
  {
    hide Step, Filter, Complete, Ends, Announces, Effectors, SomeFinal, Uninterrupted;
    var kept := Effectors(Inner(p));
    assert kept + [] == kept;
    match p
    case ControlSequence(eight, params, final) =>
      Closed(Normal, eight, 0x9B, params, [final]);
      FilterOne(Csi, final);
      Endings(Csi, final);
    case ControlString(eight, opener, body) =>
      var vt := Inside(Opened(Code(opener)), SomeFinal(body));
      Closed(Normal, eight, Code(opener), body, [0x1B, 0x5C]);
      FilterTwo(vt, 0x1B, 0x5C);
      Endings(vt, 0x1B);
    case BelString(eight, body) =>
      Closed(Normal, eight, 0x9D, body, [0x07]);
      FilterOne(OscString, 0x07);
      Endings(Osc, 0x07);
  }

  lemma EscapeErased(p: Piece)
    requires WellFormed(p) && (p.Escape? || p.Announced?)
    ensures Filter(Normal, Bytes(p)) == Filtered(Normal, [])
  {
    hide Step, Filter, Complete, Announces;
    match p
    case Escape(final) =>
      FilterTwo(Normal, 0x1B, final);
      Endings(Normal, final);
    case Announced(b, next) =>
      assert [0x1B, b, next] == [0x1B, b] + [next];
      FilterTwo(Normal, 0x1B, b);
      Endings(Normal, b);
      Endings(Normal, next);
      FilterAppend(Normal, [0x1B, b], [next]);
      FilterOne(DropOne, next);
  }

  lemma PieceRead(p: Piece)
    requires WellFormed(p)
    ensures Filter(Normal, Bytes(p)) == Filtered(Normal, TextOf(p) + Effectors(Inner(p)))
  {
    hide Step, Filter, WellFormed, Bytes;
    var kept := Effectors(Inner(p));
    assert [] + kept == kept && TextOf(p) + [] == TextOf(p);
    if p.Text? {
      TextKept(p);
    } else if p.C0? || p.C1? {
      SetErased(p);
    } else if p.Escape? || p.Announced? {
      EscapeErased(p);
    } else {
      FunctionRead(p);
    }
  }

  lemma TextKept(p: Piece)
    requires WellFormed(p) && p.Text?
    ensures Filter(Normal, Bytes(p)) == Filtered(Normal, p.bytes)
  {
    hide Filter;
    assert AllPlain(p.bytes);
    PlainKept(p.bytes);
  }

  /** Every document is filtered to its text and the effectors inside of its control functions, in place, and
      leaves the filter as it found it. */
  lemma {:induction false} DocumentFiltered(doc: seq<Piece>)
    requires AllWellFormed(doc)
    ensures Filter(Normal, AllBytes(doc)) == Filtered(Normal, AllKept(doc))
  {
    hide Step, Bytes, WellFormed, Effectors, Inner;
    if doc == [] {
      assert Filter(Normal, []) == Filtered(Normal, []);
    } else {
      PieceRead(doc[0]);
      DocumentFiltered(doc[1..]);
      FilterAppend(Normal, Bytes(doc[0]), AllBytes(doc[1..]));
    }
  }

  /** No control function of the document holds an effector. */
  ghost predicate NoEffectors(doc: seq<Piece>) {
    forall i, b :: 0 <= i < |doc| && b in Inner(doc[i]) ==> !IsEffector(b)
  }

  lemma {:induction false} EffectorsNone(s: seq<byte>)
    ensures Effectors(s) == [] <==> forall b :: b in s ==> !IsEffector(b)
  {
    hide IsEffector;
    if s != [] {
      EffectorsNone(s[1..]);
      assert forall b :: b in s <==> b == s[0] || b in s[1..];
    }
  }

  lemma {:induction false} KeptIsText(doc: seq<Piece>)
    ensures |AllKept(doc)| >= |AllText(doc)| && (AllKept(doc) == AllText(doc) <==> NoEffectors(doc))
  {
    hide IsEffector, Effectors, Inner, TextOf;
    if doc != [] {
      var rest := doc[1..];
      KeptIsText(rest);
      EffectorsNone(Inner(doc[0]));
      var text, kept := TextOf(doc[0]), Effectors(Inner(doc[0]));
      assert NoEffectors(doc) <==> kept == [] && NoEffectors(rest) by { NoEffectorsNext(doc); }
      if kept == [] {
        assert text + kept == text;
        assert (text + AllKept(rest))[|text|..] == AllKept(rest) && (text + AllText(rest))[|text|..] == AllText(rest);
      }
    }
  }

  lemma NoEffectorsNext(doc: seq<Piece>)
    requires doc != []
    ensures NoEffectors(doc) <==> (forall b :: b in Inner(doc[0]) ==> !IsEffector(b)) && NoEffectors(doc[1..])
  {
    hide Inner, IsEffector;
    assert forall i :: 0 <= i < |doc| - 1 ==> doc[1..][i] == doc[i + 1];
  }

  /** A document is filtered to exactly its text if and only if no control function in it holds an effector. */
  lemma DocumentErased(doc: seq<Piece>)
    requires AllWellFormed(doc)
    ensures Filter(Normal, AllBytes(doc)).state == Normal
    ensures Filter(Normal, AllBytes(doc)).out == AllText(doc) <==> NoEffectors(doc)
  {
    hide Filter, WellFormed, Bytes, AllBytes, AllKept, AllText, NoEffectors;
    DocumentFiltered(doc);
    KeptIsText(doc);
  }

  function WithWidth(p: Piece, eight: bool): Piece {
    if p.C1? || p.ControlSequence? || p.ControlString? || p.BelString? then p.(eight := eight) else p
  }

  lemma WidthKeeps(p: Piece, eight: bool)
    requires WellFormed(p)
    ensures var q := WithWidth(p, eight); WellFormed(q) && TextOf(q) == TextOf(p) && Inner(q) == Inner(p)
  {
  }

  /** Seven-bit and eight-bit introducers are interchangeable, piece by piece. */
  lemma {:induction false} WidthsInterchangeable(doc: seq<Piece>, doc': seq<Piece>)
    requires AllWellFormed(doc) && |doc| == |doc'|
    requires forall i :: 0 <= i < |doc| ==> doc'[i] == WithWidth(doc[i], true) || doc'[i] == WithWidth(doc[i], false)
    ensures Filter(Normal, AllBytes(doc)) == Filter(Normal, AllBytes(doc'))
  {
    hide Filter, WellFormed, Bytes, Effectors;
    if doc != [] {
      WidthsInterchangeable(doc[1..], doc'[1..]);
      WidthKeeps(doc[0], true);
      WidthKeeps(doc[0], false);
      PieceRead(doc[0]);
      PieceRead(doc'[0]);
      FilterAppend(Normal, Bytes(doc[0]), AllBytes(doc[1..]));
      FilterAppend(Normal, Bytes(doc'[0]), AllBytes(doc'[1..]));
    }
  }

  /** BEL ends the OSC string opened last exactly when that string holds a byte of 0x40-0x7E; otherwise the filter
      stays inside the string and BEL itself reaches the output. Effectors inside reach it either way. */
  lemma BelEndsString(vt: State, eight: bool, body: seq<byte>)
    requires vt != DropOne && Uninterrupted(body) && 0x07 !in body
    ensures Filter(vt, Introducer(eight, 0x9D) + (body + [0x07]))
            == if SomeFinal(body) then Filtered(Normal, Effectors(body)) else Filtered(Osc, Effectors(body) + [0x07])
  {
    hide Filter, Step, Effectors, SomeFinal, Uninterrupted;
    Closed(vt, eight, 0x9D, body, [0x07]);
    FilterOne(Inside(Osc, SomeFinal(body)), 0x07);
    Endings(Osc, 0x07);
    assert Effectors(body) + [] == Effectors(body);
  }

  /** Exactly the bytes 0x40-0x7E end a control sequence, whatever parameters it has. */
  lemma SequenceEnds(eight: bool, params: seq<byte>, b: byte)
    requires Uninterrupted(params + [b]) && !SomeFinal(params)
    ensures Filter(Normal, Introducer(eight, 0x9B) + (params + [b])).state
            == if 0x40 <= b <= 0x7E then Normal else Csi
  {
    hide Filter, Step, Effectors, SomeFinal;
    assert b == (params + [b])[|params|];
    assert forall i :: 0 <= i < |params| ==> params[i] == (params + [b])[i];
    Closed(Normal, eight, 0x9B, params, [b]);
    FilterOne(Csi, b);
    Endings(Csi, b);
    if !Ends(b) {
      StepInside(Csi, b);
    }
  }

  /** What ESC and one more byte lead to from every state but the one that drops the next byte: exactly space and
      `# ( ) * +` announce a byte, which is dropped whatever it is; a C1 function is opened, or done; any other byte
      that is not a control ends the sequence. */
  lemma EscapeAnywhere(vt: State, b: byte, next: byte)
    requires vt != DropOne
    ensures var f := Filter(vt, [0x1B, b]);
            && (f.state == DropOne <==> b in {0x20, 0x23, 0x28, 0x29, 0x2A, 0x2B})
            && (f.state == DropOne ==> Filter(vt, [0x1B, b, next]) == Filtered(Normal, []))
            && (0x40 <= b <= 0x5F ==> f == Filtered(if Opens(b + 0x40) then Opened(b + 0x40) else Normal, []))
            && (Complete(b) ==> f == Filtered(Normal, []))
  {
    hide Filter;
    FilterTwo(vt, 0x1B, b);
    assert [0x1B, b, next] == [0x1B, b] + [next];
    FilterAppend(vt, [0x1B, b], [next]);
    FilterOne(DropOne, next);
  }

  /** A control that neither interrupts nor is BEL in an OSC string leaves the state, and is kept exactly if it is one
      of 0x07-0x0D: also between ESC and the byte it waits for. */
  lemma ControlKeepsState(vt: State, b: byte)
    requires vt != DropOne && (b < 0x20 || 0x80 <= b < 0xA0) && Uninterrupted([b]) && !(vt == OscString && b == 0x07)
    ensures Filter(vt, [b]) == Filtered(vt, if 0x07 <= b <= 0x0D then [b] else [])
  {
    hide Filter;
    assert [b][0] == b;
    FilterOne(vt, b);
  }

  /** The eight-bit ST ends nothing: it is dropped and the state stays, unless one byte is to be dropped anyway. */
  lemma EightBitStEndsNothing(vt: State, s: seq<byte>)
    ensures var f := Filter(vt, s);
            Filter(vt, s + [ST]) == Filtered(if f.state == DropOne then Normal else f.state, f.out)
  {
    hide Step, Filter;
    var f := Filter(vt, s);
    FilterAppend(vt, s, [ST]);
    FilterOne(f.state, ST);
    assert Step(f.state, ST) == Filtered(if f.state == DropOne then Normal else f.state, []) by { StStep(f.state); }
    assert f.out + [] == f.out;
  }

  lemma StStep(vt: State)
    ensures Step(vt, ST) == Filtered(if vt == DropOne then Normal else vt, [])
  {
  }

  /** OSC `0` `;` BEL, without a byte of 0x40-0x7E, is not ended. */
  lemma NumberNotEnded()
    ensures Filter(Normal, [0x9D, 0x30, 0x3B, 0x07]) == Filtered(Osc, [0x07])
  {
    hide Filter;
    var body: seq<byte> := [0x30, 0x3B];
    assert Introducer(true, 0x9D) + (body + [0x07]) == [0x9D, 0x30, 0x3B, 0x07];
    BelEndsString(Normal, true, body);
  }

  lemma StringBegun()
    ensures Filter(Normal, [0x9D, 0x41]) == Filtered(OscString, [])
  {
    hide Filter;
    FilterTwo(Normal, 0x9D, 0x41);
  }

  lemma EmptyNotEnded(vt: State)
    requires vt != DropOne
    ensures Filter(vt, [0x9D, 0x07]) == Filtered(Osc, [0x07])
  {
    hide Filter;
    FilterTwo(vt, 0x9D, 0x07);
  }

  /** OSC `A` 0x9D BEL is not ended either: 0x9D opens the string anew. */
  lemma OpenedAnew()
    ensures Filter(Normal, [0x9D, 0x41, 0x9D, 0x07]) == Filtered(Osc, [0x07])
  {
    hide Filter, Step;
    StringBegun();
    EmptyNotEnded(OscString);
    assert [0x9D, 0x41, 0x9D, 0x07] == [0x9D, 0x41] + [0x9D, 0x07];
    FilterAppend(Normal, [0x9D, 0x41], [0x9D, 0x07]);
  }

  /** OSC `A` TAB BEL: the tabulator leaks. */
  lemma TabLeaks()
    ensures Filter(Normal, [0x9D, 0x41, 0x09, 0x07]) == Filtered(Normal, [0x09])
  {
    hide Filter;
    var body: seq<byte> := [0x41, 0x09];
    assert Introducer(true, 0x9D) + (body + [0x07]) == [0x9D, 0x41, 0x09, 0x07];
    assert Ends(body[0]);
    assert body[1..] == [0x09] && body[1..][1..] == [];
    BelEndsString(Normal, true, body);
  }

  /** DCS `q` ST `x`: the text behind the eight-bit ST is lost. */
  lemma TextBehindStLost()
    ensures Filter(Normal, [0x90, 0x71, ST, 0x78]) == Filtered(DcsString, [])
  {
    hide Filter;
    FilterTwo(Normal, 0x90, 0x71);
    assert [0x90, 0x71] + [ST] == [0x90, 0x71, ST] && [0x90, 0x71, ST] + [0x78] == [0x90, 0x71, ST, 0x78];
    EightBitStEndsNothing(Normal, [0x90, 0x71]);
    FilterAppend(Normal, [0x90, 0x71, ST], [0x78]);
    FilterOne(DcsString, 0x78);
  }

  /** SOS (0x98) opens nothing: what it delimits reaches the output. */
  lemma SosOpensNothing()
    ensures Filter(Normal, [0x98, 0x41, 0x1B, 0x5C]) == Filtered(Normal, [0x41])
  {
    hide Filter;
    FilterTwo(Normal, 0x98, 0x41);
    FilterTwo(Normal, 0x1B, 0x5C);
    assert [0x98, 0x41] + [0x1B, 0x5C] == [0x98, 0x41, 0x1B, 0x5C];
    FilterAppend(Normal, [0x98, 0x41], [0x1B, 0x5C]);
  }
}
