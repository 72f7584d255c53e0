/** The functions of src/configParser.c, walking their strings and filling the caller's buffers. */
module ConfigParser {
  import opened Options
  import opened Strings
  import opened ConfigLines

  /** `trimWhitespace` */
  method TrimWhitespace(data: string) returns (retval: Option<string>)
    ensures retval == Trimmed(data)
  {
    if |data| == 0 {
      return None;
    }
    var begin, end: nat := 0, |data| - 1;
    while IsWhitespace(data[begin]) && begin != end
      invariant begin <= end == |data| - 1 && Blank(data, 0, begin)
      decreases end - begin
    {
      begin := begin + 1;
    }
    if begin == end {
      return Some("");
    }
    while IsWhitespace(data[end])
      invariant begin <= end < |data| && Blank(data, end + 1, |data|)
      decreases end
    {
      end := end - 1;
    }
    assert begin == Lead(data) && end + 1 == Tail(data);
    return Some(data[begin..end + 1]);
  }

  /** The C string in a buffer. */
  ghost predicate Holds(buffer: array<char>, s: string)
    reads buffer
  {
    |s| < buffer.Length && buffer[..|s|] == s && buffer[|s|] == '\0'
  }

  /** `strcpy` */
  method StrCpy(dst: array<char>, src: string)
    requires |src| < dst.Length
    modifies dst
    ensures Holds(dst, src)
  {
    for i := 0 to |src|
      invariant dst[..i] == src[..i]
    {
      dst[i] := src[i];
    }
    dst[|src|] := '\0';
  }

  lemma TrimmedFits(s: string)
    ensures Trimmed(s).Some? ==> |Trimmed(s).value| <= |s|
  {
  }

  /** `splitConfigLine`, with the buffers' lengths as those of the arrays. The result is false when the line is
      refused; nothing is written then. */
  method SplitConfigLine(line: string, key: array<char>, value: array<char>) returns (ok: bool)
    requires key != value
    requires SplitLine(line, key.Length, value.Length) != NullCopy
    modifies key, value
    ensures ok == SplitLine(line, key.Length, value.Length).Pair?
    ensures ok ==> var p := SplitLine(line, key.Length, value.Length); Holds(key, p.key) && Holds(value, p.value)
    ensures !ok ==> key[..] == old(key[..]) && value[..] == old(value[..])
  {
    if !IsConfigLine(line) {
      return false;
    }
    var equals := IndexOf(line, '=').value;
    if equals >= key.Length {
      return false;
    }
    var actualValueLength := |line| - equals - 1;
    if actualValueLength >= value.Length {
      return false;
    }
    var trimmedKey := TrimWhitespace(line[..equals]);
    TrimmedFits(line[..equals]);
    StrCpy(key, trimmedKey.value);
    var trimmedValue := TrimWhitespace(line[equals + 1..]);
    TrimmedFits(line[equals + 1..]);
    StrCpy(value, trimmedValue.value);
    return true;
  }
}
