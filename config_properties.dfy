/** What `trim` and the line rules of `LoadConfigFile` guarantee. */
module ConfigProperties {
  import opened Text
  import opened Config

  /** Leading white space only is dropped. */
  lemma {:induction false} DropSpacesDropsSpaces(s: string)
    ensures forall i :: 0 <= i < |s| - |DropSpaces(s)| ==> IsSpace(s[i])
  {
    if s != [] && IsSpace(s[0]) {
      DropSpacesDropsSpaces(s[1..]);
      DropSpacesIsSuffix(s[1..]);
      assert forall i :: 1 <= i < |s| - |DropSpaces(s)| ==> s[i] == s[1..][i - 1];
    }
  }

  /** `DropTrailing` leaves a prefix that does not end with white space, and drops only white
      space. */
  lemma {:induction false} DropTrailingIsPrefix(s: string)
    decreases |s|
    ensures var t := DropTrailing(s);
      && t <= s && (t == [] || !IsSpace(t[|t| - 1]))
      && forall i :: |t| <= i < |s| ==> IsSpace(s[i])
  {
    if s != [] && IsSpace(s[|s| - 1]) {
      DropTrailingIsPrefix(s[..|s| - 1]);
      var t := DropTrailing(s[..|s| - 1]);
      assert forall i :: |t| <= i < |s| - 1 ==> s[i] == s[..|s| - 1][i];
    }
  }

  lemma DropTrailingKeepsFront(s: string)
    requires s == [] || !IsSpace(s[0])
    ensures DropTrailing(s) == [] ==> s == []
    ensures DropTrailing(s) != [] ==> DropTrailing(s)[0] == s[0]
  {
    DropTrailingIsPrefix(s);
  }

  /** `trim`'s result neither begins nor ends with white space. */
  lemma TrimmedEnds(s: string)
    ensures var t := Trimmed(s);
      t == [] || (!IsSpace(t[0]) && !IsSpace(t[|t| - 1]))
  {
    DropSpacesIsSuffix(s);
    DropTrailingIsPrefix(DropSpaces(s));
    DropTrailingKeepsFront(DropSpaces(s));
  }

  /** `trim`'s result is the slice of `s` between its leading and trailing white space. */
  lemma TrimmedIsSlice(s: string)
    ensures var t := Trimmed(s);
      var i := |s| - |DropSpaces(s)|;
      && 0 <= i && i + |t| <= |s| && t == s[i..i + |t|]
      && (forall j :: 0 <= j < i ==> IsSpace(s[j]))
      && (forall j :: i + |t| <= j < |s| ==> IsSpace(s[j]))
  {
    var d := DropSpaces(s);
    var t := Trimmed(s);
    var i := |s| - |d|;
    DropSpacesIsSuffix(s);
    DropSpacesDropsSpaces(s);
    DropTrailingIsPrefix(d);
    assert d == s[i..];
    assert t == d[..|t|];
    assert s[i..][..|t|] == s[i..i + |t|];
    assert forall j :: i + |t| <= j < |s| ==> s[j] == d[j - i];
  }

  lemma DropSpacesOfClean(s: string)
    requires s == [] || !IsSpace(s[0])
    ensures DropSpaces(s) == s
  {
  }

  lemma DropTrailingOfClean(s: string)
    requires s == [] || !IsSpace(s[|s| - 1])
    ensures DropTrailing(s) == s
  {
  }

  /** `trim` is idempotent. */
  lemma TrimIdempotent(s: string)
    ensures Trimmed(Trimmed(s)) == Trimmed(s)
  {
    var t := Trimmed(s);
    TrimmedEnds(s);
    DropSpacesOfClean(t);
    DropTrailingOfClean(t);
  }

  /** `trim` yields "" exactly for an all-white-space input. */
  lemma TrimEmpty(s: string)
    ensures Trimmed(s) == [] <==> forall i :: 0 <= i < |s| ==> IsSpace(s[i])
  {
    TrimmedIsSlice(s);
    var d := DropSpaces(s);
    DropSpacesIsSuffix(s);
    if forall i :: 0 <= i < |s| ==> IsSpace(s[i]) {
      assert d == [];
    }
  }

  /** Empty lines and comments add nothing. */
  lemma BlankOrCommentIgnored(line: string)
    requires line == [] || line[0] == '#'
    ensures ParseLine(line).None?
  {
  }

  /** A line ending in a carriage return is skipped, whatever it holds. */
  lemma CarriageReturnIgnored(line: string)
    requires line != [] && line[|line| - 1] == '\r'
    ensures ParseLine(line).None?
  {
  }

  /** A line with no `=` adds nothing. */
  lemma NoEqualsIgnored(line: string)
    requires '=' !in line
    ensures ParseLine(line).None?
  {
  }

  /** Otherwise the line splits at its first `=`: both halves are trimmed, and the value may
      hold further `=` characters. */
  lemma SplitAtFirstEquals(line: string, before: string, after: string)
    requires line == before + "=" + after && '=' !in before
    requires line[0] != '#' && line[|line| - 1] != '\r'
    ensures ParseLine(line) == Some((Trimmed(before), Trimmed(after)))
  {
    var pos := |before|;
    assert line[pos] == '=';
    assert forall j :: 0 <= j < pos ==> line[j] == before[j] && before[j] in before;
    assert forall j :: pos < j <= |line| ==> line[..j][pos] == '=';
    assert IndexOf(line, '=') == Some(pos);
    assert line[..pos] == before;
    assert line[pos + 1..] == after;
  }

  /** The line a configuration writer produces for a clean key and value reads back as that
      pair. */
  lemma WrittenLineRoundTrip(key: string, value: string)
    requires key != [] && key[0] != '#' && '=' !in key
    requires Trimmed(key) == key && Trimmed(value) == value
    ensures ParseLine(key + "=" + value) == Some((key, value))
  {
    var line := key + "=" + value;
    if value != [] {
      TrimmedEnds(value);
      assert line[|line| - 1] == value[|value| - 1];
    }
    SplitAtFirstEquals(line, key, value);
  }

  /** The map after loading: an existing key keeps its value, and otherwise a key has the value
      of the first line that defines it. */
  lemma {:induction false} LoadLinesFirstWins(m: map<string, string>, lines: seq<string>, k: string)
    decreases |lines|
    ensures k in LoadLines(m, lines) <==> k in m || FirstDefinition(lines, k).Some?
    ensures k in m ==> LoadLines(m, lines)[k] == m[k]
    ensures k !in m && FirstDefinition(lines, k).Some? ==> LoadLines(m, lines)[k] == FirstDefinition(lines, k).value
  {
    if lines != [] {
      LoadLinesFirstWins(Insert(m, ParseLine(lines[0])), lines[1..], k);
    }
  }

  /** `FirstDefinition` is the first line that defines the key. */
  lemma {:induction false} FirstDefinitionIsFirst(lines: seq<string>, k: string, i: nat, v: string)
    requires i < |lines| && ParseLine(lines[i]) == Some((k, v))
    requires forall j :: 0 <= j < i ==> ParseLine(lines[j]).None? || ParseLine(lines[j]).value.0 != k
    ensures FirstDefinition(lines, k) == Some(v)
  {
    if i > 0 {
      assert forall j :: 0 <= j < i - 1 ==> lines[1..][j] == lines[j + 1];
      FirstDefinitionIsFirst(lines[1..], k, i - 1, v);
    }
  }

  /** No line defines the key: it is not found. */
  lemma {:induction false} FirstDefinitionNone(lines: seq<string>, k: string)
    requires forall j :: 0 <= j < |lines| ==> ParseLine(lines[j]).None? || ParseLine(lines[j]).value.0 != k
    ensures FirstDefinition(lines, k).None?
  {
    if lines != [] {
      assert forall j :: 0 <= j < |lines| - 1 ==> lines[1..][j] == lines[j + 1];
      FirstDefinitionNone(lines[1..], k);
    }
  }

  /** `Load` after reading a file into a fresh configuration: the first definition of the key,
      or "" when none defines it. */
  lemma LoadReturnsFirstDefinition(lines: seq<string>, k: string)
    ensures var m := LoadLines(map[], lines);
      (if k in m then m[k] else "") == (match FirstDefinition(lines, k) case Some(v) => v case None => "")
  {
    LoadLinesFirstWins(map[], lines, k);
  }

  /** Once a line has defined a key, no line after it changes the key's value. */
  lemma LaterLinesIgnored(lines: seq<string>, more: seq<string>, k: string, v: string)
    requires FirstDefinition(lines, k) == Some(v)
    ensures k in LoadLines(map[], lines + more) && LoadLines(map[], lines + more)[k] == v
  {
    FirstDefinitionAppend(lines, more, k);
    LoadLinesFirstWins(map[], lines + more, k);
  }

  lemma {:induction false} FirstDefinitionAppend(lines: seq<string>, more: seq<string>, k: string)
    decreases |lines|
    requires FirstDefinition(lines, k).Some?
    ensures FirstDefinition(lines + more, k) == FirstDefinition(lines, k)
  {
    assert (lines + more)[0] == lines[0];
    assert (lines + more)[1..] == lines[1..] + more;
    match ParseLine(lines[0])
    case Some((k', _)) =>
      if k' != k {
        FirstDefinitionAppend(lines[1..], more, k);
      }
    case None =>
      FirstDefinitionAppend(lines[1..], more, k);
  }
}
