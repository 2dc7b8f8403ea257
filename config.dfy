/** `RPCConfig`: `key=value` lines read into a map, the first definition of a key winning.
    The file is given as its sequence of lines, as `std::getline` yields them. */
module Config {
  import opened Text

  /** What the second `find_if`/`erase` of `trim` leaves: trailing white space removed. */
  function DropTrailing(s: string): string
  {
    if s != [] && IsSpace(s[|s| - 1]) then DropTrailing(s[..|s| - 1]) else s
  }

  /** `trim`: leading white space removed, then trailing white space. */
  function Trimmed(s: string): string
  {
    DropTrailing(DropSpaces(s))
  }

  /** `trim`, erasing in place from the front and then from the back. */
  method Trim(str: string) returns (t: string)
    ensures t == Trimmed(str)
  {
    var pos1 := 0;
    while pos1 < |str| && IsSpace(str[pos1])
      invariant 0 <= pos1 <= |str|
      invariant DropSpaces(str[pos1..]) == DropSpaces(str)
    {
      assert str[pos1..][1..] == str[pos1 + 1..];
      pos1 := pos1 + 1;
    }
    t := str[pos1..];
    var pos2 := |t|;
    assert t[..pos2] == t;
    while pos2 > 0 && IsSpace(t[pos2 - 1])
      invariant 0 <= pos2 <= |t|
      invariant DropTrailing(t[..pos2]) == DropTrailing(t)
    {
      assert t[..pos2][..pos2 - 1] == t[..pos2 - 1];
      pos2 := pos2 - 1;
    }
    assert t[..pos2] == DropTrailing(t[..pos2]);
    t := t[..pos2];
  }

  /** One line of `LoadConfigFile`: the pair it inserts, or None when it is skipped. */
  function ParseLine(line: string): Option<(string, string)>
  {
    if line == [] || line[0] == '#' then None
    else if line[|line| - 1] == '\r' then None
    else
      match IndexOf(line, '=')
      case None => None
      case Some(pos) => Some((Trimmed(line[..pos]), Trimmed(line[pos + 1..])))
  }

  /** `m_confmap.insert`: an existing key keeps its value. */
  function Insert(m: map<string, string>, entry: Option<(string, string)>): map<string, string>
  {
    match entry
    case None => m
    case Some((k, v)) => if k in m then m else m[k := v]
  }

  /** The map after the lines, in order. */
  function LoadLines(m: map<string, string>, lines: seq<string>): map<string, string>
    decreases |lines|
  {
    if lines == [] then m else LoadLines(Insert(m, ParseLine(lines[0])), lines[1..])
  }

  /** The value of the first line that defines `k`, if any. */
  function FirstDefinition(lines: seq<string>, k: string): Option<string>
    decreases |lines|
  {
    if lines == [] then None
    else
      match ParseLine(lines[0])
      case Some((k', v)) => if k' == k then Some(v) else FirstDefinition(lines[1..], k)
      case None => FirstDefinition(lines[1..], k)
  }

  class RpcConfig {
    var confmap: map<string, string>

    constructor ()
      ensures confmap == map[]
    {
      confmap := map[];
    }

    /** The reading loop of `LoadConfigFile`, over the lines of the file. */
    method LoadConfigFile(lines: seq<string>)
      modifies this
      ensures confmap == LoadLines(old(confmap), lines)
    {
      var i := 0;
      while i < |lines|
        invariant 0 <= i <= |lines|
        invariant LoadLines(confmap, lines[i..]) == LoadLines(old(confmap), lines)
      {
        var line := lines[i];
        assert lines[i..][1..] == lines[i + 1..];
        i := i + 1;
        if line == [] || line[0] == '#' {
          continue;
        }
        if line[|line| - 1] == '\r' {
          continue;
        }
        var pos := IndexOf(line, '=');
        if pos.None? {
          continue;
        }
        var key := Trim(line[..pos.value]);
        var value := Trim(line[pos.value + 1..]);
        if key !in confmap {
          confmap := confmap[key := value];
        }
      }
    }

    function Load(key: string): string
      reads this
    {
      if key in confmap then confmap[key] else ""
    }
  }
}
