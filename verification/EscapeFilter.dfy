/** The nine-state filter of `stripesc` (src/write2syslog.c:66-177) as a transducer over bytes, and what it
    erases. Its state persists from line to line. The control functions are those of ECMA-48. */
module EscapeFilter {
  type byte = b: int | 0 <= b < 0x100

  const BEL: byte := 0x07
  const BS: byte := 0x08
  const CR: byte := 0x0D
  const LF: byte := 0x0A
  const CAN: byte := 0x18
  const SUB: byte := 0x1A
  const ESC: byte := 0x1B
  const DCS: byte := 0x90
  const CSI: byte := 0x9B
  const OSC: byte := 0x9D
  const PM: byte := 0x9E
  const APC: byte := 0x9F

  datatype State = Normal | Esc | Csi | Dcs | DcsString | Osc | OscString | DropOne | DecSet

  datatype Filtered = Filtered(state: State, out: seq<byte>)

  /** The C0 and C1 sets. */
  predicate IsControl(chr: byte) { chr < 0x20 || 0x80 <= chr < 0xA0 }

  /** The mask by which the C code tests for them. */
  lemma ControlMask(chr: bv8)
    ensures (chr & 0x6F) < 0x20 <==> chr < 0x20 || 0x80 <= chr < 0xA0
    ensures (chr & 0x6F) < 0x20 <==> IsControl(chr as int)
  {
    assert chr < 0x20 <==> (chr as int) < 0x20;
    assert 0x80 <= chr <==> 0x80 <= (chr as int);
    assert chr < 0xA0 <==> (chr as int) < 0xA0;
  }

  /** BS, TAB, LF, VT, FF and CR. */
  predicate IsFormat(chr: byte) { BS <= chr <= CR }

  predicate IsFinal(chr: byte) { 0x40 <= chr <= 0x7E }

  /** `# ( ) * +` and space after ESC announce one more byte. */
  predicate AnnouncesOne(chr: byte) {
    chr == 0x23 || chr == 0x20 || chr == 0x28 || chr == 0x29 || chr == 0x2A || chr == 0x2B
  }

  /** One round of the loop of `stripesc`. */
  function Step(vt: State, b: byte): Filtered {
    if vt == DropOne then Filtered(Normal, [])
    else
      var c1 := vt == Esc && 0x40 <= b <= 0x5F;
      var state := if c1 then Normal else vt;
      var chr := if c1 then b + 0x40 else b;
      if chr == CAN || chr == SUB then Filtered(Normal, [])
      else if chr == ESC then Filtered(Esc, [])
      else if chr == CSI then Filtered(Csi, [])
      else if chr == DCS || chr == PM || chr == APC then Filtered(Dcs, [])
      else if chr == OSC then Filtered(Osc, [])
      else if IsControl(chr) then
        if chr == BEL then (if state == OscString then Filtered(Normal, []) else Filtered(state, [chr]))
        else if IsFormat(chr) then Filtered(state, [chr])
        else Filtered(state, [])
      else
        match state
        case Normal => Filtered(Normal, [chr])
        case Esc => Filtered(if AnnouncesOne(chr) then DropOne else Normal, [])
        case Csi => Filtered(if IsFinal(chr) then Normal else Csi, [])
        case Dcs => Filtered(if IsFinal(chr) then DcsString else Dcs, [])
        case Osc => Filtered(if IsFinal(chr) then OscString else Osc, [])
        case DecSet => Filtered(if chr == 0x68 then Normal else DecSet, [])
        case DcsString => Filtered(DcsString, [])
        case OscString => Filtered(OscString, [])
        case DropOne => Filtered(DropOne, [])
  }

  function Filter(vt: State, s: seq<byte>): Filtered
    decreases |s|
  {
    if s == [] then Filtered(vt, [])
    else
      var f := Step(vt, s[0]);
      var g := Filter(f.state, s[1..]);
      g.(out := f.out + g.out)
  }

  /** Filtering is compositional: cutting the input anywhere and carrying the state over changes nothing. */
  lemma {:induction false} FilterAppend(vt: State, a: seq<byte>, b: seq<byte>)
    ensures var f := Filter(vt, a);
            var g := Filter(f.state, b);
            Filter(vt, a + b) == Filtered(g.state, f.out + g.out)
    decreases |a|
  {
    hide Step;
    if a == [] {
      assert a + b == b;
    } else {
      assert (a + b)[1..] == a[1..] + b;
      FilterAppend(Step(vt, a[0]).state, a[1..], b);
    }
  }

  /** The bytes that ever reach the output. */
  predicate Plain(chr: byte) {
    0x07 <= chr <= 0x0D || 0x20 <= chr <= 0x7F || 0xA0 <= chr
  }

  predicate AllPlain(s: seq<byte>) {
    forall i :: 0 <= i < |s| ==> Plain(s[i])
  }

  lemma StepKeepsOrDrops(vt: State, b: byte)
    ensures var f := Step(vt, b);
            && (f.out == [] || (f.out == [b] && Plain(b) && f.state == vt))
            && (vt != DecSet ==> f.state != DecSet)
  {
  }

  /** `out` is `s` with some bytes dropped. */
  ghost predicate Subsequence(out: seq<byte>, s: seq<byte>) {
    out == [] || (s != [] && (Subsequence(out, s[1..]) || (out[0] == s[0] && Subsequence(out[1..], s[1..]))))
  }

  /** The output fits the buffer, is made of plain bytes kept in order, and `DecSet` is never reached. */
  lemma {:induction false} OutputSound(vt: State, s: seq<byte>)
    ensures var f := Filter(vt, s);
            && |f.out| <= |s| && AllPlain(f.out) && Subsequence(f.out, s)
            && (vt != DecSet ==> f.state != DecSet)
    decreases |s|
  {
    hide Step;
    if s != [] {
      var f := Step(vt, s[0]);
      StepKeepsOrDrops(vt, s[0]);
      OutputSound(f.state, s[1..]);
      var g := Filter(f.state, s[1..]);
      if f.out == [] {
        assert f.out + g.out == g.out;
      } else {
        assert (f.out + g.out)[1..] == g.out;
      }
    }
  }

  lemma {:induction false} PlainKept(s: seq<byte>)
    requires AllPlain(s)
    ensures Filter(Normal, s) == Filtered(Normal, s)
  {
    if s != [] {
      assert Plain(s[0]);
      PlainKept(s[1..]);
      assert [s[0]] + s[1..] == s;
    }
  }

  /** What has been filtered once, from any state, is not changed by filtering it again. */
  lemma Idempotent(vt: State, s: seq<byte>)
    ensures Filter(Normal, Filter(vt, s).out) == Filtered(Normal, Filter(vt, s).out)
  {
    OutputSound(vt, s);
    PlainKept(Filter(vt, s).out);
  }

  /** CAN (0x18) and SUB (0x1A) bring the filter back to normal from every state, without output. */
  lemma CancelResets(vt: State, s: seq<byte>)
    ensures Filter(vt, [0x18] + s) == Filter(Normal, s) && Filter(vt, [0x1A] + s) == Filter(Normal, s)
  {
    assert ([0x18] + s)[1..] == s && ([0x1A] + s)[1..] == s;
    assert [] + Filter(Normal, s).out == Filter(Normal, s).out;
  }

  /** The bytes that pass in a state without leaving it. */
  predicate Passes(vt: State, b: byte) {
    vt != DropOne && (IsFormat(b) || (b == BEL && vt != OscString) || (vt == Normal && Plain(b)))
  }

  lemma StepPasses(vt: State, b: byte)
    ensures Passes(vt, b) <==> Step(vt, b).out == [b]
  {
  }

  /** A string comes out unchanged exactly when each of its bytes passes in the state it starts in. */
  lemma {:induction false} Unchanged(vt: State, s: seq<byte>)
    ensures Filter(vt, s).out == s <==> forall i :: 0 <= i < |s| ==> Passes(vt, s[i])
    decreases |s|
  {
    hide Step, Passes, Plain;
    if s != [] {
      var f := Step(vt, s[0]);
      StepKeepsOrDrops(vt, s[0]);
      StepPasses(vt, s[0]);
      OutputSound(f.state, s[1..]);
      Unchanged(f.state, s[1..]);
      if f.out == [s[0]] {
        assert Filter(vt, s).out[1..] == Filter(f.state, s[1..]).out;
        assert forall i :: 1 <= i < |s| ==> s[i] == s[1..][i - 1];
      }
    }
  }
}
