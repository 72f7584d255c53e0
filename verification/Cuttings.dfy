/** When the lines and the carry are the same for every way of cutting a stream into reads, and when the lines
    alone are (src/write2syslog.c:214-373). */
module Cuttings {
  import opened EscapeFilter
  import opened LineAssembly
  import opened Chunking

  /** `Tidy`, but an LF is also harmless inside the first line, where no CR has come yet. */
  predicate Steady(place: Place, first: bool, s: bytes)
    decreases |s|
  {
    s == [] || (
      && (s[0] == LF ==> place == BehindCr || (place == Leading && CR !in s) || (place == Inside && first))
      && Steady(After(place, s[0]), first && s[0] != CR, s[1..]))
  }

  /** What one read of the whole stream gives. */
  ghost predicate LikeOneRead(chunks: seq<bytes>) {
    var r, c := Session(FRESH, chunks), Cut(Concat(chunks));
    r.0 == c.lines && r.1.carry == c.rest
  }

  lemma {:induction false} SteadyLater(place: Place, s: bytes)
    ensures Steady(place, false, s) <==> Tidy(place, s)
    decreases |s|
  {
    if s != [] {
      SteadyLater(After(place, s[0]), s[1..]);
    }
  }

  /** A stream without CR is steady. */
  lemma {:induction false} NoLineSteady(place: Place, s: bytes)
    requires CR !in s && place != BehindCr
    ensures Steady(place, true, s)
    decreases |s|
  {
    if s != [] {
      NoLineSteady(After(place, s[0]), s[1..]);
    }
  }

  lemma {:induction false} SteadyInside(x: bytes, y: bytes)
    requires CR !in x
    ensures Steady(Inside, true, x + [CR] + y) <==> Tidy(BehindCr, y)
    decreases |x|
  {
    var s := x + [CR] + y;
    if x == [] {
      assert s[0] == CR && s[1..] == y;
      SteadyLater(BehindCr, y);
    } else {
      assert s[0] == x[0] && s[1..] == x[1..] + [CR] + y;
      SteadyInside(x[1..], y);
    }
  }

  /** With its first CR behind `x`, a stream is steady when `x` does not begin with LF and the rest is tidy. */
  lemma SteadyAtCr(x: bytes, y: bytes)
    requires CR !in x
    ensures Steady(Leading, true, x + [CR] + y) <==> (x == [] || x[0] != LF) && Tidy(BehindCr, y)
  {
    hide Tidy;
    var s := x + [CR] + y;
    assert s[|x|] == CR;
    if x == [] {
      assert s[0] == CR && s[1..] == y;
      SteadyLater(BehindCr, y);
    } else {
      assert s[0] == x[0] && s[1..] == x[1..] + [CR] + y;
      SteadyInside(x[1..], y);
    }
  }

  /** Without a CR nothing is emitted, and the carry is what has come without its leading LFs. */
  lemma {:induction false} NoLineYet(pre: bytes, chunks: seq<bytes>)
    requires CR !in pre && CR !in Concat(chunks)
    ensures var r := Session(Assembler(StripLf(pre), false), chunks);
            r.0 == [] && r.1 == Assembler(StripLf(pre + Concat(chunks)), false)
    decreases |chunks|
  {
    hide Cut, StripLf;
    var a := Assembler(StripLf(pre), false);
    if chunks == [] {
      assert pre + [] == pre;
    } else {
      var c, rest := chunks[0], chunks[1..];
      assert forall b :: b in c ==> b in c + Concat(rest);
      assert forall b :: b in Concat(rest) ==> b in c + Concat(rest);
      NoLineYet(pre + c, rest);
      assert pre + (c + Concat(rest)) == pre + c + Concat(rest);
      CutWithoutCr(StripLf(pre) + c);
      StrippedTwice(pre, c);
      if c == [] {
        assert pre + c == pre;
      }
    }
  }

  lemma {:induction false} StrippedTwice(pre: bytes, c: bytes)
    ensures StripLf(StripLf(pre) + c) == StripLf(pre + c)
    decreases |pre|
  {
    if pre != [] && pre[0] == LF {
      assert (pre + c)[1..] == pre[1..] + c;
      StrippedTwice(pre[1..], c);
    }
  }

  /** The lines of a session whose first line is `x` and in which nothing else has an LF. */
  ghost predicate FirstThenFree(r: (seq<bytes>, Assembler), x: bytes) {
    r.0 != [] && r.0[0] == x && LfFree(r.0[1..]) && LF !in r.1.carry
  }

  /** The call that brings the first CR. */
  lemma FirstCrFed(pre: bytes, chunk: bytes, x: bytes, y: bytes, rest: seq<bytes>)
    requires CR !in pre && CR !in x && pre + chunk == x + [CR] + y && Tidy(BehindCr, y + Concat(rest))
    ensures var r := Feed(Assembler(pre, false), chunk);
            var t := Session(r.1, rest);
            FirstThenFree((r.0 + t.0, t.1), x)
  {
    hide Cut, Tidy, AfterAll, Session;
    assert chunk != [] by {
      assert (x + [CR] + y)[|x|] == CR;
      assert pre + [] == pre;
    }
    TidyAppend(BehindCr, y, Concat(rest));
    assert pre + chunk == [] + (x + [CR] + y) && [] + x == x;
    CutBehind([], x, y);
    var next := if y != [] && y[0] == LF then Leading else BehindCr;
    LfDropped(y);
    CutTidy([], next, DropLf(y));
    assert [] + DropLf(y) == DropLf(y);
    CutRest(DropLf(y));
    var c := Cut(DropLf(y));
    var b := Assembler(c.rest, true);
    assert Feed(Assembler(pre, false), chunk) == ([x] + c.lines, b);
    assert Consistent(b, AfterAll(BehindCr, y));
    SessionTidy(b, AfterAll(BehindCr, y), rest);
    var t := Session(b, rest);
    assert ([x] + c.lines + t.0)[1..] == c.lines + t.0;
  }

  lemma {:induction false} FirstLine(pre: bytes, chunks: seq<bytes>, x: bytes, y: bytes)
    requires CR !in pre && CR !in x && (x == [] || x[0] != LF)
    requires pre + Concat(chunks) == x + [CR] + y && Tidy(BehindCr, y)
    ensures FirstThenFree(Session(Assembler(pre, false), chunks), x)
    decreases |chunks|
  {
    hide Cut, Tidy, Feed, FirstThenFree;
    assert (x + [CR] + y)[|x|] == CR && pre + [] == pre;
    if chunks != [] {
      var c, rest := chunks[0], chunks[1..];
      assert pre + (c + Concat(rest)) == pre + c + Concat(rest);
      if CR !in pre + c {
        BeforeFirstCr(pre + c, Concat(rest), x, y);
        FirstLine(pre + c, rest, x, y);
        FedBeforeCr(pre, c);
        var r := Session(Assembler(pre + c, false), rest);
        assert [] + r.0 == r.0;
      } else {
        SplitAtCr(pre + c, Concat(rest), x, y);
        FirstCrFed(pre, c, x, (pre + c)[|x| + 1..], rest);
      }
    }
  }

  lemma BeforeFirstCr(z: bytes, rest: bytes, x: bytes, y: bytes)
    requires CR !in z && z + rest == x + [CR] + y && CR !in x && (x == [] || x[0] != LF)
    ensures |z| <= |x| && (z == [] || z[0] != LF)
  {
    assert (z + rest)[|x|] == CR;
    if z != [] {
      assert z[0] == (z + rest)[0] == (x + [CR] + y)[0];
    }
  }

  lemma SplitAtCr(z: bytes, rest: bytes, x: bytes, y: bytes)
    requires CR in z && z + rest == x + [CR] + y && CR !in x
    ensures |x| < |z| && z == x + [CR] + z[|x| + 1..] && z[|x| + 1..] + rest == y
  {
    assert forall i :: 0 <= i < |x| && i < |z| ==> z[i] == (z + rest)[i] == x[i];
    assert z == (x + [CR] + y)[..|z|];
    assert y == (z + rest)[|x| + 1..];
  }

  lemma FedBeforeCr(pre: bytes, c: bytes)
    requires CR !in pre + c && (pre + c == [] || (pre + c)[0] != LF)
    ensures Feed(Assembler(pre, false), c) == ([], Assembler(pre + c, false))
  {
    hide Cut, StripLf;
    CutWithoutCr(pre + c);
    NotStripped(pre + c);
    if c == [] {
      assert pre + c == pre;
    }
  }

  /** Up to LFs, the rest of such a session is known; without LFs, it is known. */
  lemma FreeDetermined(r: (seq<bytes>, Assembler), t: (seq<bytes>, Assembler), x: bytes)
    requires FirstThenFree(r, x) && FirstThenFree(t, x)
    requires EraseAll(r.0) == EraseAll(t.0) && Erase(r.1.carry) == Erase(t.1.carry)
    ensures r.0 == t.0 && r.1.carry == t.1.carry
  {
    EraseIs(r.1.carry);
    EraseIs(t.1.carry);
    ErasedFree(r.0[1..]);
    ErasedFree(t.0[1..]);
    assert r.0[1..] == EraseAll(r.0)[1..] == EraseAll(t.0)[1..] == t.0[1..];
    assert r.0 == [x] + r.0[1..] && t.0 == [x] + t.0[1..];
  }

  lemma SameWithCr(x: bytes, y: bytes, chunks: seq<bytes>)
    requires CR !in x && (x == [] || x[0] != LF) && Tidy(BehindCr, y) && Concat(chunks) == x + [CR] + y
    ensures LikeOneRead(chunks)
  {
    hide Session, Cut, Tidy, Pieces, Erase, FirstThenFree, EraseAll, Concat;
    var s := x + [CR] + y;
    assert [] + s == s;
    WholeConcat(s);
    FirstLine([], chunks, x, y);
    FirstLine([], [s], x, y);
    SessionModuloLf(FRESH, chunks);
    SessionModuloLf(FRESH, [s]);
    FreeDetermined(Session(FRESH, chunks), Session(FRESH, [s]), x);
    WholeAtOnce(s);
  }

  lemma SameWithoutCr(s: bytes, chunks: seq<bytes>)
    requires CR !in s && Concat(chunks) == s
    ensures LikeOneRead(chunks)
  {
    hide Session, Cut, StripLf, DropLf, Concat;
    assert [] + s == s;
    NothingStripped();
    NoLineYet([], chunks);
    CutWithoutCr(s);
  }

  lemma SteadySame(s: bytes, chunks: seq<bytes>)
    requires Steady(Leading, true, s) && Concat(chunks) == s
    ensures LikeOneRead(chunks)
  {
    hide Session, Cut, Steady, Tidy, Concat, LikeOneRead, FirstCr;
    if CR !in s {
      SameWithoutCr(s, chunks);
    } else {
      var x, y := s[..FirstCr(s)], s[FirstCr(s) + 1..];
      assert s == x + [CR] + y;
      SteadyAtCr(x, y);
      SameWithCr(x, y, chunks);
    }
  }

  lemma WholeConcat(s: bytes)
    ensures Concat([s]) == s
  {
    assert [s][1..] == [] && s + [] == s;
  }

  /** An LF whose fate depends on the cutting. */
  lemma {:induction false} Unsteady(place: Place, first: bool, s: bytes) returns (pre: bytes, post: bytes)
    requires !Steady(place, first, s)
    ensures s == pre + [LF] + post
    ensures var p := AfterAll(place, pre);
            (p == Leading && CR in post) || (p == Inside && (first ==> CR in pre))
    decreases |s|
  {
    if Steady(After(place, s[0]), first && s[0] != CR, s[1..]) {
      pre, post := [], s[1..];
      assert CR in s ==> CR in post;
    } else {
      pre, post := Unsteady(After(place, s[0]), first && s[0] != CR, s[1..]);
      assert ([s[0]] + pre)[1..] == pre;
      pre := [s[0]] + pre;
    }
  }

  lemma {:induction false} LastCr(s: bytes) returns (head: bytes, y: bytes)
    requires CR in s
    ensures s == head + [CR] + y && CR !in y
    decreases |s|
  {
    if CR in s[1..] {
      head, y := LastCr(s[1..]);
      head := [s[0]] + head;
    } else {
      head, y := [], s[1..];
    }
  }

  lemma {:induction false} StaysInside(s: bytes)
    requires CR !in s
    ensures AfterAll(Inside, s) == Inside
    decreases |s|
  {
    if s != [] {
      StaysInside(s[1..]);
    }
  }

  /** Text without CR behind a CR, or behind nothing. */
  lemma {:induction false} PlaceWithoutCr(place: Place, s: bytes)
    requires CR !in s && place != Inside
    ensures AfterAll(place, s) == if StripLf(s) != [] then Inside else if s == [] then place else Leading
    decreases |s|
  {
    if s == [] {
    } else if s[0] == LF {
      PlaceWithoutCr(Leading, s[1..]);
    } else {
      StaysInside(s[1..]);
    }
  }

  /** A read that ends in a CR or goes on without one behind it. */
  lemma {:induction false} CutBehindLast(head: bytes, y: bytes)
    requires CR !in y
    ensures Cut(head + [CR]).rest == [] && Cut(head + [CR]).lines != []
    ensures Cut(head + [CR] + y) == Lines(Cut(head + [CR]).lines, StripLf(DropLf(y)))
    decreases |head|
  {
    hide Cut, FirstCr, DropLf;
    if CR !in head {
      AtOnlyCr(head, y);
    } else {
      var x, z := head[..FirstCr(head)], head[FirstCr(head) + 1..];
      assert head == x + [CR] + z;
      assert head + [CR] == [] + (x + [CR] + (z + [CR])) && head + [CR] + y == [] + (x + [CR] + (z + [CR] + y));
      assert [] + x == x;
      CutBehind([], x, z + [CR]);
      CutBehind([], x, z + [CR] + y);
      if z == [] || z[0] != LF {
        NotDropped(z + [CR]);
        NotDropped(z + [CR] + y);
        CutBehindLast(z, y);
      } else {
        DropsFirst(z, [CR]);
        DropsFirst(z, [CR] + y);
        assert z + ([CR] + y) == z + [CR] + y && z[1..] + ([CR] + y) == z[1..] + [CR] + y;
        CutBehindLast(z[1..], y);
      }
    }
  }

  lemma AtOnlyCr(head: bytes, y: bytes)
    requires CR !in head && CR !in y
    ensures Cut(head + [CR]) == Lines([head], []) && Cut(head + [CR] + y) == Lines([head], StripLf(DropLf(y)))
  {
    hide Cut;
    assert head + [CR] == [] + (head + [CR] + []) && head + [CR] + y == [] + (head + [CR] + y) && [] + head == head;
    CutBehind([], head, []);
    CutBehind([], head, y);
    CutWithoutCr([]);
    CutWithoutCr(DropLf(y));
    assert [head] + [] == [head];
  }

  lemma NotDropped(s: bytes)
    requires s == [] || s[0] != LF
    ensures DropLf(s) == s
  {
  }

  lemma DropsFirst(z: bytes, more: bytes)
    requires z != [] && z[0] == LF
    ensures DropLf(z + more) == z[1..] + more
  {
    assert (z + more)[1..] == z[1..] + more;
  }

  ghost predicate Differ(a: seq<bytes>, b: seq<bytes>) {
    var r, t := Session(FRESH, a), Session(FRESH, b);
    r.0 != t.0 || r.1.carry != t.1.carry
  }

  lemma {:induction false} ConcatAppend(a: seq<bytes>, b: seq<bytes>)
    ensures Concat(a + b) == Concat(a) + Concat(b)
    decreases |a|
  {
    if a == [] {
      assert a + b == b;
    } else {
      assert (a + b)[1..] == a[1..] + b;
      ConcatAppend(a[1..], b);
    }
  }

  lemma OneMore(chunks: seq<bytes>, chunk: bytes)
    ensures Concat(chunks + [chunk]) == Concat(chunks) + chunk
    ensures var r := Session(FRESH, chunks);
            var f := Feed(r.1, chunk);
            Session(FRESH, chunks + [chunk]) == (r.0 + f.0, f.1)
  {
    hide Feed, Session;
    ConcatAppend(chunks, [chunk]);
    WholeConcat(chunk);
    SessionNext(FRESH, chunks, chunk);
  }

  lemma Nothing()
    ensures Session(FRESH, []) == ([], FRESH) && Concat([]) == []
  {
  }

  /** One read, or two. */
  lemma ReadsOfTwo(head: bytes, y: bytes)
    requires CR !in y
    ensures var lines, z := Cut(head + [CR]).lines, StripLf(DropLf(y));
            && Session(FRESH, [head + [CR] + y]) == (lines, Assembler(z, true))
            && Session(FRESH, [head + [CR], y]) == (lines, Assembler(z, y == []))
            && Concat([head + [CR] + y]) == Concat([head + [CR], y]) == head + [CR] + y
  {
    hide Cut, Session, StripLf, DropLf, Concat;
    CutBehindLast(head, y);
    var lines := Cut(head + [CR]).lines;
    var first, whole := head + [CR], head + [CR] + y;
    assert [] + first == first && [] + whole == whole && [] + [first] == [first] && [] + [whole] == [whole];
    Nothing();
    OneMore([], whole);
    OneMore([], first);
    OneMore([first], y);
    assert [first] + [y] == [first, y] && [] + lines == lines && lines + [] == lines;
    assert first != [] && whole != [];
    if y == [] {
      assert StripLf(DropLf(y)) == [] by { NothingStripped(); }
    } else {
      assert [] + DropLf(y) == DropLf(y);
      DroppedFree(y);
      CutWithoutCr(DropLf(y));
    }
  }

  lemma NothingStripped()
    ensures StripLf(DropLf([])) == [] && StripLf([]) == []
  {
  }

  lemma DroppedFree(y: bytes)
    requires CR !in y
    ensures CR !in DropLf(y) && CR !in StripLf(DropLf(y))
  {
    hide StripLf;
  }

  /** An LF in front of a line that begins: lost if a read ends behind it. */
  lemma LeadingMatters(before: seq<bytes>, post: bytes)
    requires Session(FRESH, before).1 == FRESH && CR in post
    ensures Concat(before + [[LF] + post]) == Concat(before + [[LF]] + [post]) == Concat(before) + [LF] + post
    ensures Session(FRESH, before + [[LF] + post]).0 != Session(FRESH, before + [[LF]] + [post]).0
  {
    hide Session, Concat, Feed, Cut;
    OneMore(before, [LF] + post);
    OneMore(before, [LF]);
    OneMore(before + [[LF]], post);
    assert Concat(before) + ([LF] + post) == Concat(before) + [LF] + post;
    LoneLfFed();
    FedWhole(post);
    FedWhole([LF] + post);
    var lines := Session(FRESH, before).0;
    assert lines + [] == lines;
    FirstLinesDiffer([], post);
    assert [] + [LF] + post == [LF] + post && [] + post == post;
    var a, b := Cut([LF] + post).lines, Cut(post).lines;
    assert (lines + a)[|lines|] == a[0] && (lines + b)[|lines|] == b[0];
  }

  lemma LoneLfFed()
    ensures Feed(FRESH, [LF]) == ([], FRESH)
  {
    hide Cut;
    assert [] + [LF] == [LF];
    CutWithoutCr([LF]);
    assert StripLf([LF]) == StripLf([]) == [];
  }

  lemma FedWhole(chunk: bytes)
    requires chunk != []
    ensures Feed(FRESH, chunk).0 == Cut(chunk).lines
  {
    hide Cut;
    assert [] + chunk == chunk;
  }

  /** One LF more or less in the first line. */
  lemma FirstLinesDiffer(z: bytes, post: bytes)
    requires CR !in z && CR in post
    ensures var a, b := Cut(z + [LF] + post).lines, Cut(z + post).lines; a != [] && b != [] && a[0] != b[0]
  {
    hide Cut;
    var x, y := post[..FirstCr(post)], post[FirstCr(post) + 1..];
    assert post == x + [CR] + y;
    assert z + post == z + (x + [CR] + y) && z + [LF] + post == z + [LF] + (x + [CR] + y);
    CutBehind(z, x, y);
    CutBehind(z + [LF], x, y);
    assert |z + [LF] + x| == |z + x| + 1;
  }

  /** An LF inside a line behind a CR: lost if the read before it finished a line and ended there. */
  lemma InsideMatters(head: bytes, y: bytes, post: bytes)
    requires CR !in y && StripLf(DropLf(y)) != []
    ensures var a, b := [head + [CR] + y] + [[LF] + post], [head + [CR], y] + [[LF] + post];
            Concat(a) == Concat(b) == head + [CR] + y + [LF] + post && Differ(a, b)
  {
    hide Session, Concat, Feed, Cut;
    var z := StripLf(DropLf(y));
    DroppedFree(y);
    ReadsOfTwo(head, y);
    var one, two := [head + [CR] + y], [head + [CR], y];
    OneMore(one, [LF] + post);
    OneMore(two, [LF] + post);
    assert head + [CR] + y + ([LF] + post) == head + [CR] + y + [LF] + post;
    assert y != [] by { NothingStripped(); }
    FedLf(Assembler(z, true), post);
    FedLf(Assembler(z, false), post);
    var lines := Session(FRESH, one).0;
    if CR in post {
      FirstLinesDiffer(z, post);
      var a, b := Cut(z + post).lines, Cut(z + [LF] + post).lines;
      assert (lines + a)[|lines|] == a[0] && (lines + b)[|lines|] == b[0];
    } else {
      CutWithoutCr(z + post);
      CutWithoutCr(z + [LF] + post);
      NotStripped(z + post);
      NotStripped(z + [LF] + post);
      assert |z + [LF] + post| == |z + post| + 1;
    }
  }

  lemma FedLf(a: Assembler, post: bytes)
    ensures var c := Cut(if a.rflag then a.carry + post else a.carry + [LF] + post);
            Feed(a, [LF] + post).0 == c.lines && Feed(a, [LF] + post).1.carry == c.rest
  {
    hide Cut;
    assert ([LF] + post)[1..] == post && a.carry + ([LF] + post) == a.carry + [LF] + post;
  }

  lemma BeforeFirstLine(pre: bytes)
    requires CR !in pre && AfterAll(Leading, pre) != Inside
    ensures Session(FRESH, [pre]).1 == FRESH && Concat([pre]) == pre
  {
    hide Session, Concat, AfterAll, StripLf, DropLf;
    PlaceWithoutCr(Leading, pre);
    assert [] + pre == pre;
    WholeConcat(pre);
    NothingStripped();
    NoLineYet([], [pre]);
  }

  lemma BehindLine(head: bytes, y: bytes)
    requires CR !in y
    ensures AfterAll(Leading, head + [CR] + y) == Inside <==> StripLf(DropLf(y)) != []
    ensures AfterAll(Leading, head + [CR] + y) == Leading ==>
              var before := [head + [CR], y];
              Session(FRESH, before).1 == FRESH && Concat(before) == head + [CR] + y
  {
    hide Session, Concat, AfterAll, StripLf, DropLf, Cut;
    AfterAppend(Leading, head + [CR], y);
    AfterAppend(Leading, head, [CR]);
    AfterCr(AfterAll(Leading, head));
    PlaceWithoutCr(BehindCr, y);
    StrippedOfDropped(y);
    ReadsOfTwo(head, y);
  }

  /** Two cuttings of a stream that is not steady, with different lines or carries. */
  lemma UnsteadyDiffers(s: bytes) returns (a: seq<bytes>, b: seq<bytes>)
    requires !Steady(Leading, true, s)
    ensures Concat(a) == Concat(b) == s && Differ(a, b)
  {
    hide Session, Concat, Feed, Cut, Steady, AfterAll, StripLf, DropLf;
    var pre, post := Unsteady(Leading, true, s);
    var before := [pre];
    if CR !in pre {
      BeforeFirstLine(pre);
    } else {
      var head, y := LastCr(pre);
      BehindLine(head, y);
      if AfterAll(Leading, pre) == Inside {
        InsideMatters(head, y, post);
        a, b := [head + [CR] + y] + [[LF] + post], [head + [CR], y] + [[LF] + post];
        return;
      }
      before := [head + [CR], y];
    }
    LeadingMatters(before, post);
    a, b := before + [[LF] + post], before + [[LF]] + [post];
  }

  lemma StrippedOfDropped(y: bytes)
    ensures StripLf(DropLf(y)) == StripLf(y)
  {
  }

  /** Lines and carry are the same for every way of cutting the stream into reads: exactly when the stream is
      steady. */
  lemma SameForEveryCutting(s: bytes)
    ensures (forall chunks :: Concat(chunks) == s ==> LikeOneRead(chunks)) <==> Steady(Leading, true, s)
  {
    hide Session, Feed, Cut, Steady, Concat, LikeOneRead;
    if Steady(Leading, true, s) {
      forall chunks | Concat(chunks) == s
        ensures LikeOneRead(chunks)
      {
        SteadySame(s, chunks);
      }
    } else {
      var a, b := UnsteadyDiffers(s);
      assert !LikeOneRead(a) || !LikeOneRead(b) by { OneOfBoth(a, b); }
    }
  }

  lemma OneOfBoth(a: seq<bytes>, b: seq<bytes>)
    requires Concat(a) == Concat(b) && Differ(a, b)
    ensures !LikeOneRead(a) || !LikeOneRead(b)
  {
    hide Session, Cut, Concat;
  }

  /** A steady stream that is not tidy: `a` LF `b` CR gives the line `a` LF `b` however it is cut. */
  lemma SteadyNotTidy()
    ensures var s: bytes := [0x61, 0x0A, 0x62, 0x0D];
            && Steady(Leading, true, s) && !Tidy(Leading, s)
            && forall chunks :: Concat(chunks) == s ==>
                 var r := Session(FRESH, chunks); r.0 == [[0x61, 0x0A, 0x62]] && r.1.carry == []
  {
    hide Session, Cut, Concat;
    var s: bytes := [0x61, LF, 0x62, CR];
    assert s == [0x61, LF, 0x62] + [CR] + [];
    SteadyAtCr([0x61, LF, 0x62], []);
    assert s[1..] == [LF, 0x62, CR];
    AtOnlyCr([0x61, LF, 0x62], []);
    assert [0x61, LF, 0x62] + [CR] == s;
    SameForEveryCutting(s);
  }

  /** A stream up to its last CR. */
  function Finished(s: bytes): bytes {
    if CR !in s then []
    else if CR in s[1..] then [s[0]] + Finished(s[1..])
    else [CR]
  }

  /** What is not empty ends in a CR. */
  ghost predicate EndsInCr(s: bytes) {
    s != [] ==> s[|s| - 1] == CR
  }

  lemma {:induction false} FinishedIs(s: bytes) returns (open: bytes)
    ensures s == Finished(s) + open && CR !in open && EndsInCr(Finished(s))
    decreases |s|
  {
    if CR !in s {
      open := s;
    } else if CR in s[1..] {
      open := FinishedIs(s[1..]);
    } else {
      open := s[1..];
    }
  }

  /** Text without CR at the end of a read that ends in CR finishes no line. */
  lemma CutOpen(pre: bytes, f: bytes, open: bytes)
    requires f != [] && EndsInCr(f) && CR !in open
    ensures Cut(pre + (f + open)).lines == Cut(pre + f).lines && Cut(pre + f).rest == []
  {
    hide Cut;
    var head := pre + f[..|f| - 1];
    assert f == f[..|f| - 1] + [CR];
    assert pre + f == head + [CR] && pre + (f + open) == head + [CR] + open;
    CutBehindLast(head, open);
  }

  lemma FedOpen(a: Assembler, f: bytes, open: bytes)
    requires f != [] && EndsInCr(f) && CR !in open
    ensures Feed(a, f + open).0 == Feed(a, f).0 && Feed(a, f).1.carry == []
  {
    hide Cut;
    if a.rflag && f[0] == LF {
      assert (f + open)[1..] == f[1..] + open;
      CutOpen(a.carry, f[1..], open);
    } else {
      CutOpen(a.carry, f, open);
    }
  }

  lemma FedSilent(a: Assembler, chunk: bytes)
    requires CR !in a.carry && CR !in chunk
    ensures Feed(a, chunk).0 == [] && CR !in Feed(a, chunk).1.carry
  {
    hide Cut;
    if chunk != [] {
      var input := if a.rflag then DropLf(chunk) else chunk;
      DroppedFree(chunk);
      CutWithoutCr(a.carry + input);
      CutRest(a.carry + input);
    }
  }

  lemma {:induction false} Silent(a: Assembler, chunks: seq<bytes>)
    requires CR !in a.carry && CR !in Concat(chunks)
    ensures Session(a, chunks).0 == []
    decreases |chunks|
  {
    hide Feed;
    if chunks != [] {
      assert forall b :: b in chunks[0] ==> b in chunks[0] + Concat(chunks[1..]);
      assert forall b :: b in Concat(chunks[1..]) ==> b in chunks[0] + Concat(chunks[1..]);
      FedSilent(a, chunks[0]);
      Silent(Feed(a, chunks[0]).1, chunks[1..]);
    }
  }

  lemma FedFree(a: Assembler, chunk: bytes)
    requires CR !in a.carry
    ensures CR !in Feed(a, chunk).1.carry
  {
    hide Cut;
    if chunk != [] {
      CutRest(a.carry + if a.rflag then DropLf(chunk) else chunk);
    }
  }

  /** The reads of a stream up to its last CR emit all its lines. */
  lemma {:induction false} Truncated(a: Assembler, chunks: seq<bytes>, f: bytes, open: bytes) returns (t: seq<bytes>)
    requires CR !in a.carry && Concat(chunks) == f + open && CR !in open && EndsInCr(f)
    ensures Concat(t) == f && Session(a, t).0 == Session(a, chunks).0
    decreases |chunks|
  {
    hide Feed, Session;
    if f == [] {
      t := [];
      assert f + open == open;
      Silent(a, chunks);
      assert Session(a, []).0 == [] by { NothingFed(a); }
    } else {
      var c, rest := chunks[0], chunks[1..];
      var whole := c + Concat(rest);
      FedFree(a, c);
      if |c| < |f| {
        assert c == (f + open)[..|c|] == f[..|c|];
        assert Concat(rest) == whole[|c|..] == f[|c|..] + open;
        t := Truncated(Feed(a, c).1, rest, f[|c|..], open);
        SessionIs(a, [c] + t);
        SessionIs(a, chunks);
        assert ([c] + t)[1..] == t && f == c + f[|c|..];
        t := [c] + t;
      } else {
        var v := c[|f|..];
        assert f == whole[..|f|] == c[..|f|] && open == whole[|f|..] == v + Concat(rest);
        assert c == f + v;
        t := [f];
        WholeConcat(f);
        assert forall b :: b in v || b in Concat(rest) ==> b in v + Concat(rest);
        FedOpen(a, f, v);
        SessionIs(a, chunks);
        Silent(Feed(a, c).1, rest);
        SessionIs(a, t);
        assert t[1..] == [];
        NothingFed(Feed(a, f).1);
      }
    }
  }

  lemma NothingFed(a: Assembler)
    ensures Session(a, []) == ([], a)
  {
  }

  lemma SessionIs(a: Assembler, chunks: seq<bytes>)
    requires chunks != []
    ensures var f := Feed(a, chunks[0]);
            var r := Session(f.1, chunks[1..]);
            Session(a, chunks) == (f.0 + r.0, r.1)
  {
    hide Feed;
  }

  lemma {:induction false} CarryOfEmpty(a: Assembler, chunks: seq<bytes>)
    requires Concat(chunks) == []
    ensures Session(a, chunks) == ([], a)
    decreases |chunks|
  {
    if chunks != [] {
      CarryOfEmpty(a, chunks[1..]);
    }
  }

  /** Nothing is carried behind a CR. */
  lemma {:induction false} NothingCarried(a: Assembler, chunks: seq<bytes>)
    requires Concat(chunks) != [] && EndsInCr(Concat(chunks))
    ensures Session(a, chunks).1.carry == []
    decreases |chunks|
  {
    hide Feed, Session;
    var c, rest := chunks[0], chunks[1..];
    SessionIs(a, chunks);
    if Concat(rest) == [] {
      assert c + Concat(rest) == c && c + [] == c;
      FedOpen(a, c, []);
      CarryOfEmpty(Feed(a, c).1, rest);
    } else {
      NothingCarried(Feed(a, c).1, rest);
    }
  }

  ghost predicate LinesLikeOneRead(chunks: seq<bytes>) {
    Session(FRESH, chunks).0 == Cut(Concat(chunks)).lines
  }

  lemma FinishedLines(f: bytes, open: bytes)
    requires CR !in open && EndsInCr(f)
    ensures Cut(f + open).lines == Cut(f).lines && Cut(f).rest == []
  {
    hide Cut;
    if f == [] {
      assert f + open == open;
      CutWithoutCr(open);
      CutWithoutCr([]);
    } else {
      assert [] + (f + open) == f + open && [] + f == f;
      CutOpen([], f, open);
    }
  }

  lemma FinishedReads(chunks: seq<bytes>, open: bytes)
    requires CR !in open && Concat(chunks) != [] && EndsInCr(Concat(chunks)) && LinesLikeOneRead(chunks + [open])
    ensures LikeOneRead(chunks)
  {
    hide Cut, Session, Feed, Concat;
    var f := Concat(chunks);
    OneMore(chunks, open);
    NothingCarried(FRESH, chunks);
    FedSilent(Session(FRESH, chunks).1, open);
    assert Session(FRESH, chunks).0 + [] == Session(FRESH, chunks).0;
    FinishedLines(f, open);
  }

  /** The lines alone are the same for every way of cutting the stream into reads: exactly when the stream up to
      its last CR is steady. */
  lemma LinesSameForEveryCutting(s: bytes)
    ensures (forall chunks :: Concat(chunks) == s ==> LinesLikeOneRead(chunks)) <==> Steady(Leading, true, Finished(s))
  {
    hide Session, Feed, Cut, Steady, Concat, LikeOneRead, LinesLikeOneRead, Finished;
    var f := Finished(s);
    var open := FinishedIs(s);
    SameForEveryCutting(f);
    if Steady(Leading, true, f) {
      forall chunks | Concat(chunks) == s
        ensures LinesLikeOneRead(chunks)
      {
        var t := Truncated(FRESH, chunks, f, open);
        assert LikeOneRead(t);
        LinesOfFinished(chunks, t, f, open);
      }
    }
    if forall chunks :: Concat(chunks) == s ==> LinesLikeOneRead(chunks) {
      if f == [] {
        assert Steady(Leading, true, f) by { NoLineSteady(Leading, []); }
      } else {
        forall chunks | Concat(chunks) == f
          ensures LikeOneRead(chunks)
        {
          OneMore(chunks, open);
          FinishedReads(chunks, open);
        }
      }
    }
  }

  lemma LinesOfFinished(chunks: seq<bytes>, t: seq<bytes>, f: bytes, open: bytes)
    requires Concat(chunks) == f + open && CR !in open && EndsInCr(f) && Concat(t) == f
    requires Session(FRESH, t).0 == Session(FRESH, chunks).0 && LikeOneRead(t)
    ensures LinesLikeOneRead(chunks)
  {
    hide Session, Cut, Concat;
    FinishedLines(f, open);
  }
}
