/** What a session sends to the system log: cleaned text, emitted text and line numbers. */
module LogLines {
  import opened Options
  import opened EscapeFilter
  import opened LineAssembly
  import opened Chunking
  import opened Cuttings

  /** The C string at the start of a buffer. */
  function CStr(s: bytes): (r: bytes)
    ensures r <= s && 0 !in r && (|r| < |s| ==> s[|r|] == 0) && (0 !in s ==> r == s)
  {
    if s == [] || s[0] == 0 then [] else [s[0]] + CStr(s[1..])
  }

  lemma {:induction false} CStrIs(s: bytes, n: nat)
    requires n < |s| && 0 !in s[..n] && s[n] == 0
    ensures |CStr(s)| == n
  {
    if n > 0 {
      assert s[0] == s[..n][0] && s[..n] == [s[0]] + s[1..][..n - 1];
      CStrIs(s[1..], n - 1);
    }
  }

  lemma CStrTerminated(s: bytes)
    ensures CStr(s + [0]) == CStr(s)
  {
    var r := CStr(s);
    if |r| < |s| {
      assert (s + [0])[..|r|] == r;
      CStrIs(s + [0], |r|);
    } else {
      assert (s + [0])[..|s|] == s;
      CStrIs(s + [0], |s|);
    }
    CStrTake(s + [0]);
    CStrTake(s);
  }

  lemma CStrTake(s: bytes)
    ensures CStr(s) == s[..|CStr(s)|]
  {
  }

  lemma {:induction false} CStrAtLeast(s: bytes, n: nat)
    requires n <= |s| && 0 !in s[..n]
    ensures |CStr(s)| >= n
  {
    if n > 0 {
      assert s[0] == s[..n][0] && s[..n] == [s[0]] + s[1..][..n - 1];
      CStrAtLeast(s[1..], n - 1);
    }
  }

  /** The contents of `cleanBuffer` for each line in turn, with the filter's state carried along. */
  function Cleaned(vt: State, lines: seq<bytes>): (State, seq<bytes>)
    decreases |lines|
  {
    if lines == [] then (vt, [])
    else
      var f := Filter(vt, CStr(lines[0]));
      var (last, rest) := Cleaned(f.state, lines[1..]);
      (last, [f.out] + rest)
  }

  function Flatten(lines: seq<bytes>): bytes {
    if lines == [] then [] else lines[0] + Flatten(lines[1..])
  }

  /** The lines as C strings, which is what the messages show (see `SyslogClass.StripEsc`). */
  function Shown(lines: seq<bytes>): seq<bytes> {
    seq(|lines|, i requires 0 <= i < |lines| => CStr(lines[i]))
  }

  /** Cleaning line by line is one run of the filter over what is shown of the whole session. */
  lemma {:induction false} CleanedIsOneRun(vt: State, lines: seq<bytes>)
    ensures var r := Cleaned(vt, lines);
            Filter(vt, Flatten(Shown(lines))) == Filtered(r.0, Flatten(r.1))
    decreases |lines|
  {
    hide Filter, CStr;
    if lines == [] {
      FilterNothing(vt);
    } else {
      var line := CStr(lines[0]);
      var f := Filter(vt, line);
      CleanedIsOneRun(f.state, lines[1..]);
      var shown := Shown(lines[1..]);
      assert Shown(lines) == [line] + shown && ([line] + shown)[1..] == shown;
      FilterAppend(vt, line, Flatten(shown));
      var r := Cleaned(f.state, lines[1..]);
      assert ([f.out] + r.1)[1..] == r.1;
    }
  }

  lemma FilterFrom(vt: State, text: bytes, i: nat)
    requires i < |text|
    ensures var f := Step(vt, text[i]);
            var g := Filter(f.state, text[i + 1..]);
            Filter(vt, text[i..]) == Filtered(g.state, f.out + g.out)
  {
    hide Step;
    assert text[i..][1..] == text[i + 1..];
  }

  lemma FilterNothing(vt: State)
    ensures Filter(vt, []) == Filtered(vt, [])
  {
  }

  /** For a tidy stream the cleaned session does not depend on how the stream was cut into reads: it is one run
      of the filter over the CR-terminated pieces of the stream without LFs, each up to its first NUL. */
  lemma CleanedSessionChunkIndependent(chunks: seq<bytes>)
    requires Tidy(Leading, Concat(chunks))
    ensures var lines := Pieces(Erase(Concat(chunks))).lines;
            && Session(FRESH, chunks).0 == lines
            && Flatten(Cleaned(Normal, Session(FRESH, chunks).0).1) == Filter(Normal, Flatten(Shown(lines))).out
  {
    hide Session, Tidy, Pieces, Erase, Filter;
    var s := Concat(chunks);
    ChunkIndependent(s);
    assert Exact(chunks);
    CleanedIsOneRun(Normal, Pieces(Erase(s)).lines);
  }

  /** More generally, when the stream up to its last CR is steady, the cleaned session is that of one read of the
      whole stream, and one run of the filter over its lines. */
  lemma CleanedSessionSame(vt: State, chunks: seq<bytes>)
    requires Steady(Leading, true, Finished(Concat(chunks)))
    ensures var lines := Cut(Concat(chunks)).lines;
            var r := Cleaned(vt, Session(FRESH, chunks).0);
            && Session(FRESH, chunks).0 == lines
            && Filter(vt, Flatten(Shown(lines))) == Filtered(r.0, Flatten(r.1))
  {
    hide Session, Steady, Cut, Filter, Finished, Cleaned, Shown, Flatten, Concat;
    var s := Concat(chunks);
    LinesSameForEveryCutting(s);
    assert LinesLikeOneRead(chunks);
    CleanedIsOneRun(vt, Cut(s).lines);
  }

  /** The system log shows the cleaned lines exactly when there was nothing to clean: every byte of every line
      is one that the filter passes in its normal state. */
  lemma {:induction false} LogIsCleanWhenPlain(lines: seq<bytes>)
    ensures Shown(lines) == Cleaned(Normal, lines).1 <==> forall i :: 0 <= i < |lines| ==> AllPlain(CStr(lines[i]))
    decreases |lines|
  {
    hide Filter, CStr, Plain;
    if lines != [] {
      var line := CStr(lines[0]);
      var f := Filter(Normal, line);
      UnchangedIsPlain(line);
      var r := Cleaned(f.state, lines[1..]);
      assert Cleaned(Normal, lines).1 == [f.out] + r.1;
      assert Shown(lines) == [line] + Shown(lines[1..]);
      assert ([line] + Shown(lines[1..]))[0] == line && ([f.out] + r.1)[0] == f.out;
      assert ([line] + Shown(lines[1..]))[1..] == Shown(lines[1..]) && ([f.out] + r.1)[1..] == r.1;
      if AllPlain(line) {
        PlainKept(line);
        LogIsCleanWhenPlain(lines[1..]);
        assert forall i :: 1 <= i < |lines| ==> lines[i] == lines[1..][i - 1];
      }
    }
  }

  lemma SequenceErased()
    ensures Filter(Normal, [0x1B, 0x5B, 0x6D]) == Filtered(Normal, [])
  {
    var line: bytes := [0x1B, 0x5B, 0x6D];
    FilterFrom(Normal, line, 0);
    FilterFrom(Esc, line, 1);
    FilterFrom(Csi, line, 2);
    FilterNothing(Normal);
    assert line[0..] == line && line[3..] == [];
  }

  lemma CleanedOne(vt: State, line: bytes)
    requires 0 !in line
    ensures Cleaned(vt, [line]) == (Filter(vt, line).state, [Filter(vt, line).out]) && Shown([line]) == [line]
  {
    hide Filter, CStr;
    var f := Filter(vt, line);
    assert Cleaned(f.state, [line][1..]) == (f.state, []);
    assert [f.out] + [] == [f.out];
  }

  /** A line that holds ESC `[` `m` reaches the log as it is, though its cleaned text is empty. */
  lemma RawLineShown()
    ensures var lines: seq<bytes> := [[0x1B, 0x5B, 0x6D]];
            Shown(lines) == lines && Cleaned(Normal, lines) == (Normal, [[]])
  {
    hide Filter, Cleaned, Shown;
    SequenceErased();
    CleanedOne(Normal, [0x1B, 0x5B, 0x6D]);
  }

  lemma UnchangedIsPlain(line: bytes)
    ensures Filter(Normal, line).out == line <==> AllPlain(line)
  {
    hide Filter;
    Unchanged(Normal, line);
    assert forall b :: Passes(Normal, b) <==> Plain(b);
  }

  /** Cutting goes on behind a line. */
  lemma CutNext(s: bytes, from: nat, cr: nat)
    requires from <= cr < |s| && cr == from + FirstCr(s[from..])
    ensures var c := Cut(DropLf(s[cr + 1..]));
            Cut(s[from..]) == Lines([s[from..cr]] + c.lines, c.rest)
  {
    hide Cut, FirstCr;
    CutAtCr(s[from..]);
    assert s[from..][..cr - from] == s[from..cr] && s[from..][cr - from + 1..] == s[cr + 1..];
  }

  lemma LoneLf()
    ensures Cut([LF]) == Cut([])
  {
    CutWithoutCr([LF]);
    CutWithoutCr([]);
  }

  lemma {:induction false} CleanedAppend(vt: State, a: seq<bytes>, b: seq<bytes>)
    ensures var r := Cleaned(vt, a);
            var t := Cleaned(r.0, b);
            Cleaned(vt, a + b) == (t.0, r.1 + t.1)
    decreases |a|
  {
    hide Filter, CStr;
    if a == [] {
      assert a + b == b;
      assert [] + Cleaned(vt, b).1 == Cleaned(vt, b).1;
    } else {
      assert (a + b)[1..] == a[1..] + b;
      var first := Filter(vt, CStr(a[0]));
      CleanedAppend(first.state, a[1..], b);
      var r := Cleaned(first.state, a[1..]);
      var t := Cleaned(r.0, b);
      assert [first.out] + (r.1 + t.1) == ([first.out] + r.1) + t.1;
    }
  }

  /** One message to the system log, with its number if lines are numbered. */
  datatype Record = Record(number: Option<nat>, text: bytes)

  const MODULUS: nat := 101

  /** The messages for `lines`, of which the first has number `first`. */
  function Messages(lines: seq<bytes>, numbered: bool, first: nat): (log: seq<Record>)
    ensures |log| == |lines|
  {
    seq(|lines|, i requires 0 <= i < |lines| =>
      Record(if numbered then Some((first + i) % MODULUS) else None, CStr(lines[i])))
  }

  lemma MessagesAppend(a: seq<bytes>, b: seq<bytes>, numbered: bool, first: nat)
    ensures Messages(a + b, numbered, first)
            == Messages(a, numbered, first) + Messages(b, numbered, (first + |a|) % MODULUS)
  {
    hide CStr;
    var whole, later := Messages(a + b, numbered, first), Messages(b, numbered, (first + |a|) % MODULUS);
    forall i | 0 <= i < |b|
      ensures whole[|a| + i] == later[i]
    {
      Wraps(first + |a|, i);
    }
    assert whole[..|a|] == Messages(a, numbered, first) && whole[|a|..] == later;
  }

  lemma Wraps(x: nat, i: nat)
    ensures (x + i) % 101 == (x % 101 + i) % 101
  {
  }

  /** Everything that emitting lines changes: the messages sent, the next number, the filter's state, and the
      lines with their cleaned copies. */
  datatype Emission = Emission(log: seq<Record>, linecnt: nat, vtstate: State, pieces: seq<bytes>, cleaned: seq<bytes>)

  ghost function Emit(e: Emission, lines: seq<bytes>, numbered: bool): Emission {
    var r := Cleaned(e.vtstate, lines);
    Emission(e.log + Messages(lines, numbered, e.linecnt),
             if numbered then (e.linecnt + |lines|) % MODULUS else e.linecnt,
             r.0, e.pieces + lines, e.cleaned + r.1)
  }

  lemma EmitNothing(e: Emission, numbered: bool)
    requires e.linecnt < MODULUS
    ensures Emit(e, [], numbered) == e
  {
  }

  lemma EmitOne(e: Emission, line: bytes, numbered: bool)
    requires e.linecnt < MODULUS
    ensures var f := Filter(e.vtstate, CStr(line));
            Emit(e, [line], numbered)
            == Emission(e.log + [Record(if numbered then Some(e.linecnt) else None, CStr(line))],
                        if numbered then (if e.linecnt == 100 then 0 else e.linecnt + 1) else e.linecnt,
                        f.state, e.pieces + [line], e.cleaned + [f.out])
  {
    hide Filter, CStr;
    var f := Filter(e.vtstate, CStr(line));
    assert Cleaned(f.state, [line][1..]) == (f.state, []);
    assert [f.out] + [] == [f.out];
  }

  /** Emitting lines call by call is emitting them all. */
  lemma EmitAppend(e: Emission, a: seq<bytes>, b: seq<bytes>, numbered: bool)
    ensures Emit(e, a + b, numbered) == Emit(Emit(e, a, numbered), b, numbered)
  {
    hide Filter, CStr, Messages, Cleaned;
    MessagesAppend(a, b, numbered, e.linecnt);
    CleanedAppend(e.vtstate, a, b);
    assert e.pieces + (a + b) == e.pieces + a + b;
    assert (e.linecnt + |a| + |b|) % 101 == ((e.linecnt + |a|) % 101 + |b|) % 101;
    if !numbered {
      MessagesUnnumbered(b, e.linecnt, (e.linecnt + |a|) % MODULUS);
    }
  }

  lemma MessagesUnnumbered(lines: seq<bytes>, first: nat, other: nat)
    ensures Messages(lines, false, first) == Messages(lines, false, other)
  {
  }

  /** Each message carries the number after that of the one before. */
  ghost predicate Consecutive(log: seq<Record>) {
    forall i :: 0 <= i < |log| - 1 ==>
      log[i].number.Some? && log[i + 1].number == Some((log[i].number.value + 1) % 101)
  }

  /** The place in the whole log of message `i` of a log that lost `d` messages at `from`. */
  function Origin(i: nat, from: nat, d: nat): nat {
    if i < from then i else i + d
  }

  /** A log that lost `d` consecutive messages. */
  function Lossy(log: seq<Record>, from: nat, d: nat): (kept: seq<Record>)
    requires from + d <= |log|
    ensures |kept| == |log| - d
    ensures forall i :: 0 <= i < |kept| ==> kept[i] == log[Origin(i, from, d)]
  {
    log[..from] + log[from + d..]
  }

  lemma MessageNumber(lines: seq<bytes>, first: nat, k: nat)
    requires k < |lines|
    ensures Messages(lines, true, first)[k].number == Some((first + k) % 101)
  {
  }

  lemma LossyStep(lines: seq<bytes>, first: nat, from: nat, d: nat, i: nat)
    requires 0 < from && from + d < |lines| && i < |lines| - d - 1
    ensures var kept := Lossy(Messages(lines, true, first), from, d);
            && kept[i].number.Some?
            && (kept[i + 1].number == Some((kept[i].number.value + 1) % 101) <==> i != from - 1 || d % 101 == 0)
  {
    hide CStr, Messages, Lossy;
    MessageNumber(lines, first, Origin(i, from, d));
    MessageNumber(lines, first, Origin(i + 1, from, d));
    Gap(first + Origin(i, from, d), Origin(i + 1, from, d) - Origin(i, from, d) - 1);
  }

  /** Losing consecutive messages from within a log shows in its numbers, unless 101 divides how many were lost. */
  lemma LossShows(lines: seq<bytes>, first: nat, from: nat, d: nat)
    requires 0 < from && from + d < |lines|
    ensures Consecutive(Lossy(Messages(lines, true, first), from, d)) <==> d % 101 == 0
  {
    hide CStr, Messages, Lossy;
    var kept := Lossy(Messages(lines, true, first), from, d);
    forall i: nat | i < |kept| - 1
      ensures kept[i].number.Some?
      ensures kept[i + 1].number == Some((kept[i].number.value + 1) % 101) <==> i != from - 1 || d % 101 == 0
    {
      LossyStep(lines, first, from, d, i);
    }
    if Consecutive(kept) {
      assert kept[from - 1].number.Some?;
      assert kept[from - 1 + 1].number == Some((kept[from - 1].number.value + 1) % 101);
    }
  }

  lemma Gap(x: nat, d: nat)
    ensures (x + 1 + d) % 101 == (x % 101 + 1) % 101 <==> d % 101 == 0
  {
  }
}
