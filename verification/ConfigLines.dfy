/** Configuration lines (src/configParser.c): what trimming and splitting do, and exactly when they do what
    src/configParser.h promises. */
module ConfigLines {
  import opened Options
  import opened Strings

  /** Space, the codes from 9 (TAB) to 13 (CR), and NUL. */
  ghost predicate White(c: char) {
    c as int == 32 || 9 <= c as int <= 13 || c as int == 0
  }

  predicate IsWhitespace(c: char): (r: bool)
    ensures r <==> White(c)
  {
    c == ' ' || c == '\n' || c == '\r' || c == '\t' || c == '\U{000C}' || c == '\U{000B}' || c == '\0'
  }

  ghost predicate Blank(s: string, from: nat, end: nat) {
    forall k :: from <= k < end && k < |s| ==> White(s[k])
  }

  /** Starts and ends in something other than whitespace. */
  ghost predicate Tight(s: string) {
    s != "" && !White(s[0]) && !White(s[|s| - 1])
  }

  /** `core` is `s` without the whitespace around it. */
  ghost predicate Trims(s: string, core: string) {
    && (core == "" || Tight(core))
    && exists i, j :: 0 <= i <= j <= |s| && Blank(s, 0, i) && s[i..j] == core && Blank(s, j, |s|)
  }

  /** The length of the whitespace in front. */
  function Lead(s: string): (i: nat)
    ensures i <= |s| && Blank(s, 0, i) && (i < |s| ==> !White(s[i]))
  {
    if s == "" || !IsWhitespace(s[0]) then 0
    else
      assert forall k :: 1 <= k < |s| ==> s[k] == s[1..][k - 1];
      1 + Lead(s[1..])
  }

  /** The position behind which only whitespace follows. */
  function Tail(s: string): (j: nat)
    ensures j <= |s| && Blank(s, j, |s|) && (j > 0 ==> !White(s[j - 1]))
  {
    if s == "" || !IsWhitespace(s[|s| - 1]) then |s|
    else
      assert forall k :: 0 <= k < |s| - 1 ==> s[k] == s[..|s| - 1][k];
      Tail(s[..|s| - 1])
  }

  /** The promised trimming. */
  function Stripped(s: string): string {
    if Lead(s) < Tail(s) then s[Lead(s)..Tail(s)] else ""
  }

  /** `Stripped` takes the whitespace from around a string, and nothing else does. */
  lemma StrippedExactly(s: string, core: string)
    ensures Trims(s, core) <==> core == Stripped(s)
  {
    var i, j := Lead(s), Tail(s);
    if core == Stripped(s) {
      if i < j {
        assert s[i..j] == core;
      } else {
        assert s[0..0] == core && Blank(s, 0, |s|);
      }
      assert Trims(s, core);
    }
    if Trims(s, core) {
      var i', j' :| 0 <= i' <= j' <= |s| && Blank(s, 0, i') && s[i'..j'] == core && Blank(s, j', |s|);
      if core != "" {
        assert s[i'] == core[0] && s[j' - 1] == core[|core| - 1];
        assert i == i' && j == j';
      } else {
        assert Blank(s, 0, |s|);
      }
    }
  }

  /** The result of `trimWhitespace`; `None` is NULL, for the empty string. */
  function Trimmed(s: string): Option<string> {
    if s == "" then None
    else if Lead(s) >= |s| - 1 then Some("")
    else Some(Stripped(s))
  }

  /** Only the last character is not whitespace. */
  ghost predicate SingleAtEnd(s: string) {
    s != "" && Blank(s, 0, |s| - 1) && !White(s[|s| - 1])
  }

  /** Trimming keeps its promise except for the empty string, for which it returns NULL, and for a text to keep
      that is a single character at the very end of the string: that character is lost. */
  lemma TrimmedExactly(s: string)
    ensures Trimmed(s) == Some(Stripped(s)) <==> s != "" && !SingleAtEnd(s)
    ensures Trimmed(s) == None <==> s == ""
    ensures SingleAtEnd(s) ==> Trimmed(s) == Some("") && Stripped(s) == [s[|s| - 1]]
  {
  }

  /** The two failing cases at their smallest. */
  lemma TrimmedWrongly()
    ensures Trimmed("a") == Some("") && Stripped("a") == "a"
    ensures Trimmed("") == None && Stripped("") == ""
  {
  }

  predicate IsConfigLine(line: string) {
    line != "" && line[0] != '#' && '=' in line
  }

  /** `NullCopy` stands for the call of `strcpy` with the NULL that trimming an empty part returns. */
  datatype Split = Rejected | Pair(key: string, value: string) | NullCopy

  function SplitLine(line: string, keyLength: nat, valueLength: nat): Split {
    if !IsConfigLine(line) then Rejected
    else
      var k := IndexOf(line, '=').value;
      if k >= keyLength || |line| - k - 1 >= valueLength then Rejected
      else if Trimmed(line[..k]).None? || Trimmed(line[k + 1..]).None? then NullCopy
      else Pair(Trimmed(line[..k]).value, Trimmed(line[k + 1..]).value)
  }

  /** A line is refused exactly when it is empty, begins with `#`, has no `=`, or has a part that is too long for
      its buffer: from the length of the buffer on, before trimming. An empty part of any other line is copied from
      NULL. */
  lemma RefusedExactly(line: string, keyLength: nat, valueLength: nat)
    ensures SplitLine(line, keyLength, valueLength) == Rejected <==>
              || line == "" || line[0] == '#' || '=' !in line
              || exists k, v :: Parts(line, k, v) && (|k| >= keyLength || |v| >= valueLength)
    ensures SplitLine(line, keyLength, valueLength) == NullCopy <==>
              && line != "" && line[0] != '#'
              && exists k, v :: Parts(line, k, v) && |k| < keyLength && |v| < valueLength && (k == "" || v == "")
  {
    if line != "" && line[0] != '#' && '=' in line {
      var i := IndexOf(line, '=').value;
      assert Parts(line, line[..i], line[i + 1..]);
      forall k, v | Parts(line, k, v)
        ensures k == line[..i] && v == line[i + 1..]
      {
        assert line[..|k|] == k && line[|k|] == '=';
        IndexIs(line, '=', |k|);
      }
    }
  }

  /** The parts in front of and behind the first `=`. */
  ghost predicate Parts(line: string, k: string, v: string) {
    line == k + "=" + v && '=' !in k
  }

  ghost predicate AllBlank(s: string) { Blank(s, 0, |s|) }

  /** Whitespace around a text is trimmed, unless the text is one character with no whitespace behind it. */
  lemma PartTrimmed(w: string, core: string, w': string)
    requires AllBlank(w) && AllBlank(w') && Tight(core)
    ensures var s := w + core + w';
            Trimmed(s) == Some(core) <==> |core| >= 2 || w' != ""
  {
    var s := w + core + w';
    assert s[|w|..|w + core|] == core;
    assert forall k :: 0 <= k < |w| ==> s[k] == w[k];
    assert forall k :: 0 <= k < |w'| ==> s[|w + core| + k] == w'[k];
    assert Blank(s, |w + core|, |s|) by {
      assert forall k :: |w + core| <= k < |s| ==> s[k] == w'[k - |w + core|];
    }
    assert Trims(s, core);
    StrippedExactly(s, core);
    TrimmedExactly(s);
    assert s[|w|] == core[0] && s[|w + core| - 1] == core[|core| - 1];
    if w' != "" {
      assert White(w'[|w'| - 1]) && s[|s| - 1] == w'[|w'| - 1];
    }
  }

  /** Splitting recovers a key and a value written with any whitespace around them: exactly when neither is a
      single character with no whitespace behind it. */
  lemma SplitRecovers(w1: string, k: string, w2: string, w3: string, v: string, w4: string, keyLength: nat,
                      valueLength: nat)
    requires AllBlank(w1) && AllBlank(w2) && AllBlank(w3) && AllBlank(w4)
    requires Tight(k) && Tight(v) && '=' !in k && (w1 + k)[0] != '#'
    requires |w1 + k + w2| < keyLength && |w3 + v + w4| < valueLength
    ensures SplitLine(w1 + k + w2 + "=" + (w3 + v + w4), keyLength, valueLength) == Pair(k, v)
            <==> (|k| >= 2 || w2 != "") && (|v| >= 2 || w4 != "")
  {
    var left, right := w1 + k + w2, w3 + v + w4;
    var line := left + "=" + right;
    assert '=' !in left by {
      assert forall c :: c in left ==> c in w1 || c in k || c in w2;
      assert forall i :: 0 <= i < |w1| ==> White(w1[i]);
      assert forall i :: 0 <= i < |w2| ==> White(w2[i]);
    }
    assert line[..|left|] == left && line[|left|] == '=' && line[|left| + 1..] == right;
    IndexIs(line, '=', |left|);
    assert line[0] == (w1 + k)[0];
    PartTrimmed(w1, k, w2);
    PartTrimmed(w3, v, w4);
  }

  /** `file = true`, as it stands in a configuration file. */
  lemma SplitExample()
    ensures SplitLine("file = true", 1024, 1024) == Pair("file", "true")
    ensures SplitLine("# file = true", 1024, 1024) == Rejected
  {
    assert "file = true" == "" + "file" + " " + "=" + (" " + "true" + "");
    SplitRecovers("", "file", " ", " ", "true", "", 1024, 1024);
  }
}
