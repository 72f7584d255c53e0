/** What the emitted lines are, whichever way a stream was cut into reads: when they are exactly its pieces
    between the CRs. */
module Chunking {
  import opened EscapeFilter
  import opened LineAssembly

  /** The stream that consists of the given lines, each ended by CR, and a rest. */
  function Unsplit(lines: seq<bytes>, rest: bytes): bytes {
    if lines == [] then rest else lines[0] + [CR] + Unsplit(lines[1..], rest)
  }

  function CountCr(s: bytes): nat {
    if s == [] then 0 else (if s[0] == CR then 1 else 0) + CountCr(s[1..])
  }

  lemma {:induction false} CountCrAppend(a: bytes, b: bytes)
    ensures CountCr(a + b) == CountCr(a) + CountCr(b)
    decreases |a|
  {
    if a == [] {
      assert a + b == b;
    } else {
      assert (a + b)[1..] == a[1..] + b;
      CountCrAppend(a[1..], b);
    }
  }

  lemma {:induction false} NoCr(s: bytes)
    requires CR !in s
    ensures CountCr(s) == 0
    decreases |s|
  {
    if s != [] {
      NoCr(s[1..]);
    }
  }

  /** `Pieces` takes a stream apart at its CRs: there is one line for each CR, no piece contains one, and
      putting them back gives the stream. */
  lemma {:induction false} PiecesExact(s: bytes)
    ensures var p := Pieces(s);
            && Unsplit(p.lines, p.rest) == s && |p.lines| == CountCr(s)
            && CR !in p.rest && forall i :: 0 <= i < |p.lines| ==> CR !in p.lines[i]
    decreases |s|
  {
    hide Pieces, FirstCr;
    var k := FirstCr(s);
    if k == |s| {
      assert s[..k] == s;
      PiecesWithoutCr(s);
      NoCr(s);
    } else {
      var x, y := s[..k], s[k + 1..];
      assert s == x + [CR] + y;
      PiecesAtCr(x, y);
      PiecesExact(y);
      CountCrAppend(x + [CR], y);
      CountCrAppend(x, [CR]);
      NoCr(x);
    }
  }

  lemma {:induction false} EraseKeepsCr(s: bytes)
    ensures CountCr(Erase(s)) == CountCr(s)
    decreases |s|
  {
    if s != [] {
      EraseKeepsCr(s[1..]);
      var head := if s[0] == LF then [] else [s[0]];
      CountCrAppend(head, Erase(s[1..]));
    }
  }

  /** As many lines are emitted as CRs were received. */
  lemma OneLinePerCr(chunks: seq<bytes>)
    ensures |Session(FRESH, chunks).0| == CountCr(Concat(chunks))
  {
    hide Session, Pieces, Erase;
    var s := Concat(chunks);
    SessionModuloLf(FRESH, chunks);
    assert [] + s == s;
    PiecesExact(Erase(s));
    EraseKeepsCr(s);
    assert |EraseAll(Session(FRESH, chunks).0)| == |Session(FRESH, chunks).0|;
  }

  /** Where in a stream the next byte comes: directly behind a CR, behind nothing or only LFs since the last
      CR, or inside a line. */
  datatype Place = BehindCr | Leading | Inside

  function After(place: Place, b: byte): Place {
    if b == CR then BehindCr
    else if b == LF && place != Inside then Leading
    else Inside
  }

  function AfterAll(place: Place, s: bytes): Place
    decreases |s|
  {
    if s == [] then place else AfterAll(After(place, s[0]), s[1..])
  }

  /** Every LF stands directly behind a CR, or among the LFs that open the unfinished piece. */
  predicate Tidy(place: Place, s: bytes)
    decreases |s|
  {
    s == [] || (
      && (s[0] == LF ==> place == BehindCr || (place == Leading && CR !in s))
      && Tidy(After(place, s[0]), s[1..]))
  }

  /** In particular, a stream with LFs only directly behind CRs is tidy. */
  lemma {:induction false} DisciplinedIsTidy(place: Place, s: bytes)
    requires s != [] && s[0] == LF ==> place == BehindCr
    requires forall i :: 1 <= i < |s| && s[i] == LF ==> s[i - 1] == CR
    ensures Tidy(place, s)
    decreases |s|
  {
    if s != [] {
      assert |s| > 1 && s[1] == LF ==> s[0] == CR;
      assert forall i :: 1 <= i < |s| - 1 && s[1..][i] == LF ==> s[1..][i - 1] == s[i] == CR;
      DisciplinedIsTidy(After(place, s[0]), s[1..]);
    }
  }

  lemma {:induction false} TidyAppend(place: Place, a: bytes, b: bytes)
    requires Tidy(place, a + b)
    ensures Tidy(place, a) && Tidy(AfterAll(place, a), b)
    ensures Tidy(place, a) && a != [] && a[0] == LF && place == Leading ==> CR !in a + b
    decreases |a|
  {
    if a == [] {
      assert a + b == b;
    } else {
      assert (a + b)[1..] == a[1..] + b;
      assert forall x :: x in a ==> x in a + b;
      TidyAppend(After(place, a[0]), a[1..], b);
    }
  }

  lemma {:induction false} AfterAppend(place: Place, a: bytes, b: bytes)
    ensures AfterAll(place, a + b) == AfterAll(AfterAll(place, a), b)
    decreases |a|
  {
    if a == [] {
      assert a + b == b;
    } else {
      assert (a + b)[1..] == a[1..] + b;
      AfterAppend(After(place, a[0]), a[1..], b);
    }
  }

  lemma {:induction false} NoLfInside(s: bytes)
    requires Tidy(Inside, s) && CR !in s
    ensures LF !in s && AfterAll(Inside, s) == Inside
    decreases |s|
  {
    if s != [] {
      NoLfInside(s[1..]);
    }
  }

  /** The text in front of the first CR of a tidy stream. */
  lemma {:induction false} NoLfBefore(place: Place, x: bytes, y: bytes)
    requires CR !in x && Tidy(place, x + [CR] + y) && (x != [] && x[0] == LF ==> place != BehindCr)
    ensures LF !in x && Tidy(BehindCr, y)
    decreases |x|
  {
    var s := x + [CR] + y;
    assert s[|x|] == CR;
    if x == [] {
      assert s[1..] == y;
    } else {
      assert s[0] == x[0] && s[1..] == x[1..] + [CR] + y;
      NoLfBefore(Inside, x[1..], y);
    }
  }

  ghost predicate LfFree(lines: seq<bytes>) {
    forall i :: 0 <= i < |lines| ==> LF !in lines[i]
  }

  lemma {:induction false} StrippedLead(s: bytes, place: Place)
    requires CR !in s && Tidy(place, s) && place != Inside
    ensures LF !in StripLf(s)
    ensures (StripLf(s) == [] <==> AfterAll(place, s) != Inside) && (s != [] ==> AfterAll(place, s) != BehindCr)
    decreases |s|
  {
    if s != [] {
      if s[0] == LF {
        StrippedLead(s[1..], Leading);
      } else {
        NoLfInside(s[1..]);
      }
    }
  }

  /** What cutting `pre + s` yields, where `pre` is what is known of the current line. */
  ghost predicate CutsTidily(pre: bytes, place: Place, s: bytes) {
    var c := Cut(pre + s);
    && LfFree(c.lines) && LF !in c.rest
    && (c.rest != [] <==> AfterAll(place, s) == Inside)
    && (AfterAll(place, s) == BehindCr && s != [] ==> c.lines != [])
  }

  lemma LastPieceTidy(pre: bytes, place: Place, s: bytes)
    requires LF !in pre && CR !in pre && (pre != [] <==> place == Inside)
    requires Tidy(place, s) && CR !in s
    ensures CutsTidily(pre, place, s)
  {
    hide Cut, FirstCr, StripLf, Tidy, AfterAll;
    AfterNone(place);
    CutWithoutCr(pre + s);
    if pre == [] {
      assert pre + s == s;
      StrippedLead(s, place);
    } else {
      NoLfInside(s);
      NotStripped(pre + s);
    }
  }

  lemma FirstLineTidy(pre: bytes, place: Place, x: bytes, y: bytes, next: Place)
    requires LF !in pre && CR !in pre && LF !in x && CR !in x
    requires CutsTidily([], next, DropLf(y)) && AfterAll(next, DropLf(y)) == AfterAll(BehindCr, y)
    ensures CutsTidily(pre, place, x + [CR] + y)
  {
    hide Cut, AfterAll, DropLf;
    CutBehind(pre, x, y);
    AfterAppend(place, x + [CR], y);
    AfterAppend(place, x, [CR]);
    AfterCr(AfterAll(place, x));
    var c := Cut([] + DropLf(y));
    assert [] + DropLf(y) == DropLf(y);
    assert forall i :: 1 <= i < |c.lines| + 1 ==> ([pre + x] + c.lines)[i] == c.lines[i - 1];
  }

  lemma {:induction false} CutTidy(pre: bytes, place: Place, s: bytes)
    requires LF !in pre && CR !in pre && (pre != [] <==> place == Inside)
    requires Tidy(place, s) && (s != [] && s[0] == LF ==> place != BehindCr)
    ensures CutsTidily(pre, place, s)
    decreases |s|
  {
    hide CutsTidily, FirstCr, Tidy, AfterAll, DropLf;
    if CR !in s {
      LastPieceTidy(pre, place, s);
    } else {
      var x, y := s[..FirstCr(s)], s[FirstCr(s) + 1..];
      assert s == x + [CR] + y;
      NoLfBefore(place, x, y);
      var next := if y != [] && y[0] == LF then Leading else BehindCr;
      LfDropped(y);
      CutTidy([], next, DropLf(y));
      FirstLineTidy(pre, place, x, y, next);
    }
  }

  /** An LF directly behind a CR leads to where the rest of it is read from. */
  lemma LfDropped(y: bytes)
    requires Tidy(BehindCr, y)
    ensures var next := if y != [] && y[0] == LF then Leading else BehindCr;
            && Tidy(next, DropLf(y)) && AfterAll(next, DropLf(y)) == AfterAll(BehindCr, y)
            && (DropLf(y) != [] && DropLf(y)[0] == LF ==> next != BehindCr) && |DropLf(y)| <= |y|
  {
  }

  lemma AfterNone(place: Place)
    ensures AfterAll(place, []) == place
  {
  }

  lemma AfterCr(place: Place)
    ensures AfterAll(place, [CR]) == BehindCr
  {
    assert AfterAll(BehindCr, [CR][1..]) == BehindCr;
  }

  lemma NotStripped(s: bytes)
    requires s == [] || s[0] != LF
    ensures StripLf(s) == s
  {
  }

  lemma CutBehind(pre: bytes, x: bytes, y: bytes)
    requires CR !in pre && CR !in x
    ensures Cut(pre + (x + [CR] + y)) == Lines([pre + x] + Cut(DropLf(y)).lines, Cut(DropLf(y)).rest)
  {
    var s := pre + (x + [CR] + y);
    var k := |pre + x|;
    hide Cut, DropLf;
    assert s[..k] == pre + x && s[k] == CR && s[k + 1..] == y;
    FirstCrIs(s, k);
    CutAtCr(s);
  }

  /** What links the assembler's state to the place in the stream. */
  ghost predicate Consistent(a: Assembler, place: Place) {
    && LF !in a.carry && CR !in a.carry
    && (a.carry != [] <==> place == Inside)
    && (place == BehindCr ==> a.rflag)
  }

  lemma FeedTidy(a: Assembler, place: Place, chunk: bytes)
    requires Consistent(a, place) && Tidy(place, chunk)
    ensures var r := Feed(a, chunk);
            LfFree(r.0) && Consistent(r.1, AfterAll(place, chunk))
  {
    hide Cut;
    if chunk != [] {
      if a.rflag && chunk[0] == LF {
        CutTidy(a.carry, Leading, chunk[1..]);
        CutRest(a.carry + chunk[1..]);
      } else {
        CutTidy(a.carry, place, chunk);
        CutRest(a.carry + chunk);
      }
    }
  }

  lemma {:induction false} SessionTidy(a: Assembler, place: Place, chunks: seq<bytes>)
    requires Consistent(a, place) && Tidy(place, Concat(chunks))
    ensures var r := Session(a, chunks);
            LfFree(r.0) && LF !in r.1.carry
    decreases |chunks|
  {
    hide Feed, Tidy, AfterAll;
    if chunks != [] {
      TidyAppend(place, chunks[0], Concat(chunks[1..]));
      FeedTidy(a, place, chunks[0]);
      SessionTidy(Feed(a, chunks[0]).1, AfterAll(place, chunks[0]), chunks[1..]);
    }
  }

  lemma {:induction false} ErasedFree(lines: seq<bytes>)
    ensures LfFree(EraseAll(lines)) && (LfFree(lines) ==> EraseAll(lines) == lines)
  {
    forall i | 0 <= i < |lines|
      ensures LF !in Erase(lines[i]) && (LF !in lines[i] ==> Erase(lines[i]) == lines[i])
    {
      EraseIs(lines[i]);
    }
  }

  /** A session whose lines are exactly the CR-terminated pieces of its stream without LFs. */
  ghost predicate Exact(chunks: seq<bytes>) {
    var r := Session(FRESH, chunks);
    var p := Pieces(Erase(Concat(chunks)));
    r.0 == p.lines && r.1.carry == p.rest
  }

  /** Exact means free of LFs. */
  lemma ExactIsLfFree(chunks: seq<bytes>)
    ensures var r := Session(FRESH, chunks); Exact(chunks) <==> LfFree(r.0) && LF !in r.1.carry
  {
    hide Session, Pieces, Erase;
    var r := Session(FRESH, chunks);
    SessionModuloLf(FRESH, chunks);
    assert [] + Concat(chunks) == Concat(chunks);
    ErasedFree(r.0);
    EraseIs(r.1.carry);
  }

  lemma {:induction false} StrippedBack(s: bytes)
    requires CR !in s && LF !in StripLf(s)
    ensures Tidy(Leading, s)
    decreases |s|
  {
    if s != [] {
      if s[0] == LF {
        StrippedBack(s[1..]);
      } else {
        LfFreeTidy(Inside, s[1..]);
      }
    }
  }

  lemma {:induction false} LfFreeTidy(place: Place, s: bytes)
    requires LF !in s
    ensures Tidy(place, s)
    decreases |s|
  {
    if s != [] {
      LfFreeTidy(After(place, s[0]), s[1..]);
    }
  }

  lemma {:induction false} TidyAcross(place: Place, x: bytes, y: bytes)
    requires LF !in x && Tidy(BehindCr, y)
    ensures Tidy(place, x + [CR] + y)
    decreases |x|
  {
    var s := x + [CR] + y;
    if x == [] {
      assert s[1..] == y;
    } else {
      assert s[0] == x[0] && s[1..] == x[1..] + [CR] + y;
      TidyAcross(After(place, x[0]), x[1..], y);
    }
  }

  lemma BehindCrTidy(y: bytes)
    requires Tidy(Leading, DropLf(y))
    ensures Tidy(BehindCr, y)
  {
  }

  lemma {:induction false} CutBack(s: bytes)
    requires LfFree(Cut(s).lines) && LF !in Cut(s).rest
    ensures Tidy(Leading, s)
    decreases |s|
  {
    hide Cut, FirstCr, StripLf, Tidy, DropLf;
    if CR !in s {
      CutWithoutCr(s);
      StrippedBack(s);
    } else {
      var x, y := s[..FirstCr(s)], s[FirstCr(s) + 1..];
      CutAtCr(s);
      var c := Cut(DropLf(y));
      assert LF !in ([x] + c.lines)[0];
      assert forall i :: 0 <= i < |c.lines| ==> c.lines[i] == ([x] + c.lines)[i + 1];
      CutBack(DropLf(y));
      BehindCrTidy(y);
      TidyAcross(Leading, x, y);
    }
  }

  /** The emitted lines are the same, and are the pieces of the stream, for every way of cutting the stream into
      reads: exactly when the stream is tidy. */
  lemma ChunkIndependent(s: bytes)
    ensures (forall chunks :: Concat(chunks) == s ==> Exact(chunks)) <==> Tidy(Leading, s)
  {
    hide Session, Feed, Cut, Pieces, Erase, Exact, Tidy;
    if Tidy(Leading, s) {
      forall chunks | Concat(chunks) == s
        ensures Exact(chunks)
      {
        SessionTidy(FRESH, Leading, chunks);
        ExactIsLfFree(chunks);
      }
    }
    if forall chunks :: Concat(chunks) == s ==> Exact(chunks) {
      assert Concat([s]) == s by { assert [s][1..] == []; assert s + [] == s; }
      ExactIsLfFree([s]);
      WholeAtOnce(s);
      CutBack(s);
    }
  }

  lemma WholeAtOnce(s: bytes)
    ensures var r := Session(FRESH, [s]); r.0 == Cut(s).lines && r.1.carry == Cut(s).rest
  {
    hide Cut;
    assert [s][1..] == [] && [] + s == s;
    if s == [] {
      CutWithoutCr(s);
    }
  }

  /** Cutting a stream in two can change its lines: an LF behind a line's first byte is lost when a read
      boundary falls in front of it and the read before emitted a line. */
  lemma ChunksMatter()
    ensures var s := [0x61, 0x0D, 0x62, 0x0A, 0x63, 0x0D];
            && Session(FRESH, [s]).0 == [[0x61], [0x62, 0x0A, 0x63]]
            && s == Concat([s[..3], s[3..]])
            && Session(FRESH, [s[..3], s[3..]]).0 == [[0x61], [0x62, 0x63]]
  {
    hide Cut, Session, Feed, Concat;
    var s: bytes := [0x61, CR, 0x62, LF, 0x63, CR];
    WholeAtOnce(s);
    InOneRead();
    TwoChunks(s[..3], s[3..]);
    InTwoReads();
    assert s[..3] + s[3..] == s && s[..3] == [0x61, CR, 0x62] && s[3..] == [LF, 0x63, CR];
  }

  lemma InOneRead()
    ensures Cut([0x61, CR, 0x62, LF, 0x63, CR]).lines == [[0x61], [0x62, LF, 0x63]]
  {
    hide Cut;
    LastLine([0x62, LF, 0x63]);
    assert [0x62, LF, 0x63] + [CR] == [0x62, LF, 0x63, CR];
    CutLine([0x61], [0x62, LF, 0x63, CR]);
    assert [0x61] + [CR] + [0x62, LF, 0x63, CR] == [0x61, CR, 0x62, LF, 0x63, CR];
  }

  lemma LastLine(x: bytes)
    requires CR !in x
    ensures Cut(x + [CR]).lines == [x]
  {
    hide Cut;
    assert x + [CR] == x + [CR] + [];
    CutLine(x, []);
    CutWithoutCr([]);
    assert [x] + [] == [x];
  }

  /** A read that finishes one line. */
  lemma FeedOneLine(a: Assembler, chunk: bytes, x: bytes, y: bytes)
    requires CR !in x && CR !in y && chunk != [] && (y == [] || y[0] != LF)
    requires a.carry + (if a.rflag then DropLf(chunk) else chunk) == x + [CR] + y
    ensures Feed(a, chunk) == ([x], Assembler(y, true))
  {
    hide Cut, StripLf, DropLf;
    CutLine(x, y);
    CutWithoutCr(y);
    NotStripped(y);
    assert [x] + [] == [x];
  }

  lemma InTwoReads()
    ensures Feed(FRESH, [0x61, CR, 0x62]) == ([[0x61]], Assembler([0x62], true))
    ensures Feed(Assembler([0x62], true), [LF, 0x63, CR]).0 == [[0x62, 0x63]]
  {
    hide Feed;
    assert [] + [0x61, CR, 0x62] == [0x61] + [CR] + [0x62];
    FeedOneLine(FRESH, [0x61, CR, 0x62], [0x61], [0x62]);
    assert [0x62] + [LF, 0x63, CR][1..] == [0x62, 0x63] + [CR] + [];
    FeedOneLine(Assembler([0x62], true), [LF, 0x63, CR], [0x62, 0x63], []);
  }

  lemma CutLine(x: bytes, y: bytes)
    requires CR !in x && (y == [] || y[0] != LF)
    ensures Cut(x + [CR] + y) == Lines([x] + Cut(y).lines, Cut(y).rest)
  {
    assert x + [CR] + y == [] + (x + [CR] + y) && [] + x == x;
    CutBehind([], x, y);
  }

  lemma TwoChunks(x: bytes, y: bytes)
    ensures Concat([x]) == x && Concat([x, y]) == x + y
    ensures var (lines, a) := Feed(FRESH, x); Session(FRESH, [x, y]).0 == lines + Feed(a, y).0
  {
    hide Feed;
    assert [x, y][1..] == [y];
    assert |[x][1..]| == 0 && |[y][1..]| == 0;
    var (lines, a) := Feed(FRESH, x);
    var (more, b) := Feed(a, y);
    assert Session(a, [y]).0 == more + [];
  }
}
