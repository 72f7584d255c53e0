/** `stripesc` and `write2syslog` (src/write2syslog.c:78-374), with their static variables as fields. */
module SyslogClass {
  import opened Options
  import opened EscapeFilter
  import opened LineAssembly
  import opened LogLines

  /** The static variables of src/write2syslog.c. `rptr` is empty when the C pointer is NULL. `log` collects the
      messages sent; the ghost fields record what the lines and their cleaned copies were. */
  class Syslog {
    var vtstate: State
    var rptr: bytes
    var rflag: bool
    var linecnt: nat
    var log: seq<Record>
    ghost var pieces: seq<bytes>
    ghost var cleaned: seq<bytes>

    constructor ()
      ensures vtstate == Normal && Kept() == FRESH && linecnt == 0 && log == [] && pieces == [] && cleaned == []
    {
      vtstate, rptr, rflag, linecnt, log := Normal, [], false, 0, [];
      pieces, cleaned := [], [];
    }

    function Kept(): Assembler
      reads this
    {
      Assembler(rptr, rflag)
    }

    static method StrLen(s: array<byte>) returns (n: nat)
      requires 0 in s[..]
      ensures n == |CStr(s[..])| < s.Length
    {
      n := 0;
      while s[n] != 0
        invariant n < s.Length && 0 !in s[..n] && 0 in s[n..]
        decreases s.Length - n
      {
        assert s[n..][1..] == s[n + 1..];
        n := n + 1;
      }
      CStrIs(s[..], n);
    }

    /** `strncpy` */
    static method StrNCpy(dst: array<byte>, src: array<byte>, n: nat)
      requires n <= dst.Length && n <= src.Length && dst != src
      modifies dst
      ensures forall i :: 0 <= i < n ==> dst[i] == if i < |CStr(src[..])| then src[i] else 0
      ensures forall i :: n <= i < dst.Length ==> dst[i] == old(dst[i])
    {
      var i := 0;
      while i < n && src[i] != 0
        invariant i <= n && 0 !in src[..i]
        invariant forall j :: 0 <= j < i ==> dst[j] == src[j]
        invariant forall j :: i <= j < dst.Length ==> dst[j] == old(dst[j])
      {
        dst[i] := src[i];
        i := i + 1;
      }
      ghost var k := i;
      if i < n {
        CStrIs(src[..], i);
      } else {
        CStrAtLeast(src[..], n);
      }
      while i < n
        invariant k <= i <= n
        invariant forall j :: 0 <= j < k ==> dst[j] == src[j]
        invariant forall j :: k <= j < i ==> dst[j] == 0
        invariant forall j :: i <= j < dst.Length ==> dst[j] == old(dst[j])
      {
        dst[i] := 0;
        i := i + 1;
      }
    }

    /** One round of the loop of `stripesc`: the state is updated and the byte written or dropped. */
    method Advance(b: byte, cleanBuffer: array<byte>, at: nat) returns (next: nat)
      requires at < cleanBuffer.Length
      modifies this`vtstate, cleanBuffer
      ensures vtstate == Step(old(vtstate), b).state && at <= next <= at + 1
      ensures cleanBuffer[..next] == old(cleanBuffer[..at]) + Step(old(vtstate), b).out
    {
      next := at;
      if vtstate == DropOne {
        vtstate := Normal;
        return;
      }
      var chr := b;
      if vtstate == Esc && 0x40 <= chr <= 0x5F {
        vtstate := Normal;
        chr := chr + 0x40;
      }
      if chr == CAN || chr == SUB {
        vtstate := Normal;
      } else if chr == ESC {
        vtstate := Esc;
      } else if chr == CSI {
        vtstate := Csi;
      } else if chr == DCS || chr == PM || chr == APC {
        vtstate := Dcs;
      } else if chr == OSC {
        vtstate := Osc;
      } else if IsControl(chr) {
        if chr == BEL && vtstate == OscString {
          vtstate := Normal;
        } else if chr == BEL || IsFormat(chr) {
          cleanBuffer[at] := chr;
          next := at + 1;
        }
      } else {
        match vtstate
        case Normal =>
          cleanBuffer[at] := chr;
          next := at + 1;
        case Esc =>
          vtstate := if AnnouncesOne(chr) then DropOne else Normal;
        case Csi =>
          if 0x40 <= chr <= 0x7E { vtstate := Normal; }
        case Dcs =>
          if 0x40 <= chr <= 0x7E { vtstate := DcsString; }
        case Osc =>
          if 0x40 <= chr <= 0x7E { vtstate := OscString; }
        case DecSet =>
          if chr == 0x68 { vtstate := Normal; }
        case _ =>
      }
    }

    /** `stripesc`. The cleaned text is complete in `cleanBuffer`, but `buflen` has been counted down to 0 by the
        time of the copy back, so that the caller's buffer keeps the text as it was. */
    method StripEsc(escBuffer: array<byte>) returns (clean: bytes)
      requires 0 in escBuffer[..]
      modifies this`vtstate, escBuffer
      ensures var f := Filter(old(vtstate), CStr(old(escBuffer[..])));
              vtstate == f.state && clean == f.out
      ensures escBuffer[..] == old(escBuffer[..])
    {
      hide Step, Filter, CStr;
      var buflen := StrLen(escBuffer);
      var cleanBuffer := new byte[buflen + 1];
      var escBufferPtr: nat, cleanBufferPtr: nat := 0, 0;
      ghost var text := CStr(escBuffer[..]);
      ghost var whole := Filter(vtstate, text);
      while escBuffer[escBufferPtr] != 0 && buflen > 0
        modifies this`vtstate, cleanBuffer
        invariant escBufferPtr + buflen == |text| < escBuffer.Length && 0 <= buflen && cleanBufferPtr <= escBufferPtr
        invariant var f := Filter(vtstate, text[escBufferPtr..]);
                  f.state == whole.state && cleanBuffer[..cleanBufferPtr] + f.out == whole.out
        decreases buflen
      {
        var chr := escBuffer[escBufferPtr];
        FilterFrom(vtstate, text, escBufferPtr);
        escBufferPtr := escBufferPtr + 1;
        buflen := buflen - 1;
        cleanBufferPtr := Advance(chr, cleanBuffer, cleanBufferPtr);
      }
      assert text[escBufferPtr..] == [];
      FilterNothing(vtstate);
      clean := cleanBuffer[..cleanBufferPtr];
      cleanBuffer[cleanBufferPtr] := 0;
      StrNCpy(escBuffer, cleanBuffer, buflen);
    }

    /** A line as a C string of its own. */
    static method CopyLine(line: bytes) returns (eptr: array<byte>)
      ensures fresh(eptr) && 0 in eptr[..] && CStr(eptr[..]) == CStr(line)
    {
      eptr := new byte[|line| + 1];
      forall i | 0 <= i < |line| {
        eptr[i] := line[i];
      }
      eptr[|line|] := 0;
      assert eptr[..] == line + [0];
      assert eptr[..][|line|] == 0;
      CStrTerminated(line);
    }

    ghost function Emitted(): Emission
      reads this
    {
      Emission(log, linecnt, vtstate, pieces, cleaned)
    }

    /** Copies a line to a C string, cleans it and sends it. */
    method EmitLine(line: bytes, useLinecnt: bool)
      requires linecnt < MODULUS
      modifies this`vtstate, this`linecnt, this`log, this`pieces, this`cleaned
      ensures linecnt < MODULUS && Emitted() == Emit(old(Emitted()), [line], useLinecnt)
    {
      hide Filter, CStr, Emit;
      EmitOne(Emitted(), line, useLinecnt);
      var eptr := CopyLine(line);
      var clean := StripEsc(eptr);
      var n := StrLen(eptr);
      CStrTake(eptr[..]);
      var text := eptr[..n];
      assert text == CStr(line);
      if useLinecnt {
        log := log + [Record(Some(linecnt), text)];
        linecnt := linecnt + 1;
        if linecnt == 101 {
          linecnt := 0;
        }
      } else {
        log := log + [Record(None, text)];
      }
      pieces := pieces + [line];
      cleaned := cleaned + [clean];
    }

    /** From the CR at `lptr` on to the next line and the CR that ends it. */
    static method NextLine(s: bytes, lptr: nat) returns (tptr: nat, next: int)
      requires lptr < |s|
      ensures lptr < tptr <= |s| && Cut(s[tptr..]) == Cut(DropLf(s[lptr + 1..]))
      ensures if CR in s[tptr..] then next == tptr + FirstCr(s[tptr..]) && next < |s| else next == -1
    {
      hide Cut, FirstCr;
      if lptr == |s| - 1 {
        tptr, next := lptr + 1, -1;
      } else {
        tptr := lptr + 1;
        if s[tptr] == LF && tptr == |s| - 1 {
          next := -1;
          assert s[tptr..] == [LF];
          LoneLf();
        } else if s[tptr] == LF {
          tptr := tptr + 1;
          next := MemChr(s, tptr);
        } else {
          next := MemChr(s, tptr);
        }
      }
    }

    /** The first loop of `write2syslog`: emits every finished line of the buffer. */
    method EmitLines(useLinecnt: bool) returns (tptr: nat)
      requires linecnt < MODULUS && !rflag
      modifies this`vtstate, this`linecnt, this`log, this`pieces, this`cleaned, this`rflag
      ensures linecnt < MODULUS && tptr <= |rptr|
      ensures Emitted() == Emit(old(Emitted()), Cut(rptr).lines, useLinecnt) && rflag == (Cut(rptr).lines != [])
      ensures Cut(rptr).rest == StripLf(rptr[tptr..])
    {
      hide Cut, FirstCr, StripLf, Emit;
      tptr := 0;
      var lptr := MemChr(rptr, tptr);
      ghost var lines: seq<bytes> := [];
      assert rptr[0..] == rptr;
      EmitNothing(Emitted(), useLinecnt);
      while lptr != -1 && tptr < |rptr|
        invariant tptr <= |rptr| && linecnt < MODULUS
        invariant if CR in rptr[tptr..] then lptr == tptr + FirstCr(rptr[tptr..]) && lptr < |rptr| else lptr == -1
        invariant var c := Cut(rptr[tptr..]); Cut(rptr) == Lines(lines + c.lines, c.rest)
        invariant rflag == (lines != []) && Emitted() == Emit(old(Emitted()), lines, useLinecnt)
        decreases |rptr| - tptr
      {
        rflag := true;
        ghost var line, from := rptr[tptr..lptr], tptr;
        EmitLine(rptr[tptr..lptr], useLinecnt);
        EmitAppend(old(Emitted()), lines, [line], useLinecnt);
        CutNext(rptr, from, lptr);
        tptr, lptr := NextLine(rptr, lptr);
        ghost var c := Cut(rptr[tptr..]);
        assert lines + ([line] + c.lines) == lines + [line] + c.lines;
        lines := lines + [line];
      }
      CutWithoutCr(rptr[tptr..]);
      assert lines + [] == lines;
    }

    /** The second loop of `write2syslog`: passes the LFs in front of the unfinished piece. */
    static method SkipLfs(s: bytes, from: nat) returns (tptr: nat)
      requires from <= |s|
      ensures tptr <= |s| && s[tptr..] == StripLf(s[from..])
    {
      tptr := from;
      while tptr < |s| && s[tptr] == LF
        invariant from <= tptr <= |s| && StripLf(s[tptr..]) == StripLf(s[from..])
      {
        assert s[tptr..][1..] == s[tptr + 1..];
        tptr := tptr + 1;
      }
    }

    /** `write2syslog`. An absent or empty `optr` is ignored. */
    method Write2Syslog(optr: bytes, useLinecnt: bool)
      requires linecnt < MODULUS && CR !in rptr
      modifies this
      ensures linecnt < MODULUS && CR !in rptr
      ensures var (lines, kept) := Feed(old(Kept()), optr);
              Kept() == kept && Emitted() == Emit(old(Emitted()), lines, useLinecnt)
    {
      hide StripLf, FirstCr, Cut, Emit, Feed;
      EmitNothing(Emitted(), useLinecnt);
      FeedIs(Kept(), optr);
      if |optr| == 0 {
        return;
      }
      var input := optr;
      if rflag && optr[0] == LF {
        input := optr[1..];
      }
      rflag := false;
      rptr := rptr + input;
      CutRest(rptr);
      var tptr := EmitLines(useLinecnt);
      tptr := SkipLfs(rptr, tptr);
      rptr := rptr[tptr..];
    }

    /** A session: the reads of a terminal, one call each. */
    method LogSession(chunks: seq<bytes>, useLinecnt: bool)
      requires linecnt < MODULUS && CR !in rptr
      modifies this
      ensures linecnt < MODULUS && CR !in rptr
      ensures var (lines, kept) := Session(old(Kept()), chunks);
              Kept() == kept && Emitted() == Emit(old(Emitted()), lines, useLinecnt)
    {
      hide Feed, Emit;
      ghost var a, e := Kept(), Emitted();
      EmitNothing(e, useLinecnt);
      for i := 0 to |chunks|
        invariant linecnt < MODULUS && CR !in rptr
        invariant Kept() == Session(a, chunks[..i]).1
        invariant Emitted() == Emit(e, Session(a, chunks[..i]).0, useLinecnt)
      {
        ghost var before := Session(a, chunks[..i]);
        ghost var next := Feed(Kept(), chunks[i]);
        Write2Syslog(chunks[i], useLinecnt);
        EmitAppend(e, before.0, next.0, useLinecnt);
        SessionNext(a, chunks[..i], chunks[i]);
        assert chunks[..i] + [chunks[i]] == chunks[..i + 1];
      }
      assert chunks[..|chunks|] == chunks;
    }

    /** `memchr` for CR, from position `from` on; -1 stands for NULL. */
    static method MemChr(s: bytes, from: nat) returns (k: int)
      requires from <= |s|
      ensures if CR in s[from..] then k == from + FirstCr(s[from..]) && k < |s| else k == -1
    {
      k := from;
      while k < |s| && s[k] != CR
        invariant from <= k <= |s| && CR !in s[from..k]
      {
        k := k + 1;
      }
      assert s[from..][..k - from] == s[from..k];
      FirstCrIs(s[from..], k - from);
      if k == |s| {
        k := -1;
      }
    }
  }
}
