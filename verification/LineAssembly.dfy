/** How `write2syslog` (src/write2syslog.c:180-374) reassembles lines from arbitrarily cut reads. */
module LineAssembly {
  import opened EscapeFilter

  type bytes = seq<byte>

  function DropLf(s: bytes): bytes {
    if s != [] && s[0] == LF then s[1..] else s
  }

  function StripLf(s: bytes): (r: bytes)
    ensures r != [] ==> r[0] != LF
    ensures |r| <= |s| && r == s[|s| - |r|..]
  {
    if s != [] && s[0] == LF then StripLf(s[1..]) else s
  }

  /** The position of the first CR, or the length of `s`. */
  function FirstCr(s: bytes): (k: nat)
    ensures k <= |s| && CR !in s[..k] && (k < |s| ==> s[k] == CR)
    ensures k == |s| <==> CR !in s
  {
    if s == [] || s[0] == CR then 0
    else
      var k := FirstCr(s[1..]);
      assert s[..k + 1] == [s[0]] + s[1..][..k];
      k + 1
  }

  lemma {:induction false} FirstCrIs(s: bytes, k: nat)
    requires k <= |s| && CR !in s[..k] && (k < |s| ==> s[k] == CR)
    ensures FirstCr(s) == k
  {
    if k > 0 {
      assert s[0] == s[..k][0] && s[..k] == [s[0]] + s[1..][..k - 1];
      FirstCrIs(s[1..], k - 1);
    }
  }

  /** Finished lines and the unfinished piece behind them. */
  datatype Lines = Lines(lines: seq<bytes>, rest: bytes)

  /** Cutting a buffer at its CRs: one LF directly behind a CR is dropped, and so are all LFs in front of the
      unfinished piece. */
  function Cut(s: bytes): Lines
    decreases |s|
  {
    var k := FirstCr(s);
    if k == |s| then Lines([], StripLf(s))
    else
      var c := Cut(DropLf(s[k + 1..]));
      c.(lines := [s[..k]] + c.lines)
  }

  /** What is kept between two calls. */
  datatype Assembler = Assembler(carry: bytes, rflag: bool)

  /** One call: the lines it emits and what it keeps. */
  function Feed(a: Assembler, chunk: bytes): (seq<bytes>, Assembler) {
    if chunk == [] then ([], a)
    else
      var c := Cut(a.carry + if a.rflag then DropLf(chunk) else chunk);
      (c.lines, Assembler(c.rest, c.lines != []))
  }

  lemma FeedIs(a: Assembler, chunk: bytes)
    ensures chunk == [] ==> Feed(a, chunk) == ([], a)
    ensures chunk != [] ==>
              var c := Cut(a.carry + if a.rflag && chunk[0] == LF then chunk[1..] else chunk);
              Feed(a, chunk) == (c.lines, Assembler(c.rest, c.lines != []))
  {
    hide Cut;
  }

  /** All calls of a session. */
  function Session(a: Assembler, chunks: seq<bytes>): (seq<bytes>, Assembler)
    decreases |chunks|
  {
    if chunks == [] then ([], a)
    else
      var (lines, b) := Feed(a, chunks[0]);
      var (more, c) := Session(b, chunks[1..]);
      (lines + more, c)
  }

  /** One call more. */
  lemma {:induction false} SessionNext(a: Assembler, chunks: seq<bytes>, chunk: bytes)
    ensures var r := Session(a, chunks);
            var f := Feed(r.1, chunk);
            Session(a, chunks + [chunk]) == (r.0 + f.0, f.1)
    decreases |chunks|
  {
    hide Feed;
    if chunks == [] {
      assert chunks + [chunk] == [chunk] && [chunk][1..] == chunks;
      var f := Feed(a, chunk);
      assert Session(f.1, chunks) == ([], f.1);
      assert f.0 + [] == f.0 == [] + f.0;
    } else {
      assert (chunks + [chunk])[1..] == chunks[1..] + [chunk];
      var b := Feed(a, chunks[0]);
      SessionNext(b.1, chunks[1..], chunk);
      var r := Session(b.1, chunks[1..]);
      assert b.0 + (r.0 + Feed(r.1, chunk).0) == b.0 + r.0 + Feed(r.1, chunk).0;
    }
  }

  const FRESH := Assembler([], false)

  function Concat(chunks: seq<bytes>): bytes {
    if chunks == [] then [] else chunks[0] + Concat(chunks[1..])
  }

  /** The intended lines: split at every CR, nothing dropped. */
  function Pieces(s: bytes): Lines
    decreases |s|
  {
    var k := FirstCr(s);
    if k == |s| then Lines([], s)
    else
      var p := Pieces(s[k + 1..]);
      p.(lines := [s[..k]] + p.lines)
  }

  function Erase(s: bytes): bytes {
    if s == [] then [] else (if s[0] == LF then [] else [s[0]]) + Erase(s[1..])
  }

  function EraseAll(lines: seq<bytes>): seq<bytes> {
    seq(|lines|, i requires 0 <= i < |lines| => Erase(lines[i]))
  }

  lemma {:induction false} EraseAppend(a: bytes, b: bytes)
    ensures Erase(a + b) == Erase(a) + Erase(b)
    decreases |a|
  {
    if a == [] {
      assert a + b == b;
    } else {
      assert (a + b)[1..] == a[1..] + b;
      EraseAppend(a[1..], b);
    }
  }

  lemma {:induction false} EraseIs(s: bytes)
    ensures LF !in Erase(s) && (CR !in s ==> CR !in Erase(s)) && (LF !in s ==> Erase(s) == s)
    decreases |s|
  {
    if s != [] {
      EraseIs(s[1..]);
    }
  }

  lemma {:induction false} EraseStripped(s: bytes)
    ensures Erase(StripLf(s)) == Erase(s) && Erase(DropLf(s)) == Erase(s)
    decreases |s|
  {
    if s != [] && s[0] == LF {
      EraseStripped(s[1..]);
    }
  }

  lemma EraseAroundCr(x: bytes, y: bytes)
    ensures Erase(x + [CR] + y) == Erase(x) + [CR] + Erase(y)
  {
    EraseAppend(x + [CR], y);
    EraseAppend(x, [CR]);
    EraseIs([CR]);
  }

  lemma PiecesAtCr(x: bytes, y: bytes)
    requires CR !in x
    ensures Pieces(x + [CR] + y) == Lines([x] + Pieces(y).lines, Pieces(y).rest)
  {
    var s := x + [CR] + y;
    assert s[..|x|] == x && s[|x| + 1..] == y;
    FirstCrIs(s, |x|);
  }

  lemma PiecesWithoutCr(x: bytes)
    requires CR !in x
    ensures Pieces(x) == Lines([], x)
  {
    assert x[..|x|] == x;
    FirstCrIs(x, |x|);
  }

  /** Splitting a stream that arrives in two parts. */
  lemma {:induction false} PiecesAppend(a: bytes, b: bytes)
    ensures var p := Pieces(a);
            var q := Pieces(p.rest + b);
            Pieces(a + b) == Lines(p.lines + q.lines, q.rest)
    decreases |a|
  {
    hide Pieces, FirstCr;
    var k := FirstCr(a);
    if k == |a| {
      assert a[..k] == a;
      PiecesWithoutCr(a);
    } else {
      var x, y := a[..k], a[k + 1..];
      assert a == x + [CR] + y && a + b == x + [CR] + (y + b);
      PiecesAtCr(x, y);
      PiecesAtCr(x, y + b);
      PiecesAppend(y, b);
      var q := Pieces(Pieces(y).rest + b);
      assert [x] + (Pieces(y).lines + q.lines) == [x] + Pieces(y).lines + q.lines;
    }
  }

  lemma CutWithoutCr(s: bytes)
    requires CR !in s
    ensures Cut(s) == Lines([], StripLf(s))
  {
    FirstCrIs(s, |s|);
  }

  lemma CutAtCr(s: bytes)
    requires FirstCr(s) < |s|
    ensures var x, y := s[..FirstCr(s)], s[FirstCr(s) + 1..];
            s == x + [CR] + y && CR !in x && |DropLf(y)| < |s|
            && Cut(s) == Lines([x] + Cut(DropLf(y)).lines, Cut(DropLf(y)).rest)
  {
  }

  /** Cutting drops nothing but LFs. */
  lemma {:induction false} CutErased(s: bytes)
    ensures var c, p := Cut(s), Pieces(Erase(s));
            EraseAll(c.lines) == p.lines && Erase(c.rest) == p.rest
    decreases |s|
  {
    hide Cut, Pieces, FirstCr, DropLf, StripLf, Erase;
    if FirstCr(s) == |s| {
      assert s[..|s|] == s;
      CutWithoutCr(s);
      EraseIs(s);
      EraseStripped(s);
      PiecesWithoutCr(Erase(s));
    } else {
      var x, y := s[..FirstCr(s)], s[FirstCr(s) + 1..];
      CutAtCr(s);
      CutErased(DropLf(y));
      EraseStripped(y);
      EraseIs(x);
      EraseAroundCr(x, y);
      PiecesAtCr(Erase(x), Erase(y));
      assert EraseAll([x] + Cut(DropLf(y)).lines) == [Erase(x)] + EraseAll(Cut(DropLf(y)).lines);
    }
  }

  /** For every stream and every way of cutting it into chunks: up to LFs, the emitted lines are the
      CR-terminated pieces and the carry is the unfinished piece, so no other byte is lost, repeated or moved. */
  lemma {:induction false} SessionModuloLf(a: Assembler, chunks: seq<bytes>)
    requires CR !in a.carry
    ensures var r := Session(a, chunks);
            var p := Pieces(Erase(a.carry + Concat(chunks)));
            EraseAll(r.0) == p.lines && Erase(r.1.carry) == p.rest
    decreases |chunks|
  {
    hide Pieces, Feed, Erase;
    if chunks == [] {
      assert a.carry + [] == a.carry;
      EraseIs(a.carry);
      PiecesWithoutCr(Erase(a.carry));
    } else {
      var (lines, b) := Feed(a, chunks[0]);
      var (more, c) := Session(b, chunks[1..]);
      FeedModuloLf(a, chunks[0]);
      SessionModuloLf(b, chunks[1..]);
      var now, later := a.carry + chunks[0], Concat(chunks[1..]);
      assert a.carry + Concat(chunks) == now + later;
      EraseAppend(now, later);
      EraseAppend(b.carry, later);
      PiecesAppend(Erase(now), Erase(later));
      assert EraseAll(lines + more) == EraseAll(lines) + EraseAll(more);
    }
  }

  /** What every call keeps: the carry holds no CR and does not start with LF. */
  lemma {:induction false} CutRest(s: bytes)
    ensures CR !in Cut(s).rest && (Cut(s).rest != [] ==> Cut(s).rest[0] != LF)
    decreases |s|
  {
    var k := FirstCr(s);
    if k == |s| {
      assert s[..k] == s;
      assert forall b :: b in StripLf(s) ==> b in s;
    } else {
      CutRest(DropLf(s[k + 1..]));
    }
  }

  lemma FeedModuloLf(a: Assembler, chunk: bytes)
    requires CR !in a.carry
    ensures var (lines, b) := Feed(a, chunk);
            var p := Pieces(Erase(a.carry + chunk));
            EraseAll(lines) == p.lines && Erase(b.carry) == p.rest && CR !in b.carry
  {
    if chunk == [] {
      assert a.carry + chunk == a.carry;
      EraseIs(a.carry);
      FirstCrIs(Erase(a.carry), |Erase(a.carry)|);
    } else {
      var input := if a.rflag then DropLf(chunk) else chunk;
      CutErased(a.carry + input);
      CutRest(a.carry + input);
      EraseStripped(chunk);
      EraseAppend(a.carry, input);
      EraseAppend(a.carry, chunk);
    }
  }
}
