/**
  The baseline file: one `path|digest` record per line. Writing it
  (baseline creation) and reading it back (the loader, which reads the file in
  text mode, strips each line, splits it at its first '|' and makes relative
  paths absolute).
 */
module BaselineStore {
  import opened Wrappers
  import opened Dicts
  import opened Traversal
  import opened Seqs

  /** One record as written: `path|digest` and a newline. */
  function RecordLine(r: (Path, Digest)): (line: string)
    ensures |line| == |r.0| + |r.1| + 2 && line[..|r.0|] == r.0 && line[|r.0|] == '|'
    ensures line[|r.0| + 1..|line| - 1] == r.1 && line[|line| - 1] == '\n'
  {
    r.0 + "|" + r.1 + "\n"
  }

  /** The baseline file's text for the records `rs`, in order: empty for no records, else ending in a newline. */
  function Serialize(rs: seq<(Path, Digest)>): (text: string)
    ensures text == [] <==> rs == []
    ensures text != [] ==> text[|text| - 1] == '\n'
  {
    if rs == [] then "" else RecordLine(rs[0]) + Serialize(rs[1..])
  }

  lemma {:induction false} SerializeAppend(rs: seq<(Path, Digest)>, r: (Path, Digest))
    ensures Serialize(rs + [r]) == Serialize(rs) + RecordLine(r)
  {
    if rs == [] {
      assert [] + [r] == [r];
    } else {
      var t := rs + [r];
      assert t[0] == rs[0] && t[1..] == rs[1..] + [r];
      SerializeAppend(rs[1..], r);
      var h := RecordLine(rs[0]);
      assert Serialize(t) == h + (Serialize(rs[1..]) + RecordLine(r));
      assert h + (Serialize(rs[1..]) + RecordLine(r)) == h + Serialize(rs[1..]) + RecordLine(r);
    }
  }

  /**
    Baseline creation: walk the tree from `root`, skip the tool's own files,
    and write one record per file whose digest is truthy. Returns the file's
    text and the number of records written.
   */
  method CreateBaseline(tree: Tree<Option<Digest>>, root: Path, scriptName: string) returns (text: string, count: nat)
    ensures text == Serialize(Records(Walk(tree, root), scriptName))
    ensures count == |Records(Walk(tree, root), scriptName)|
  {
    text, count := WriteRecords(Walk(tree, root), scriptName);
  }

  /** The loop over the walk's files, in walk order, writing one line per recorded file. */
  method WriteRecords(ls: seq<Listing<Option<Digest>>>, scriptName: string) returns (text: string, count: nat)
    ensures text == Serialize(Records(ls, scriptName))
    ensures count == |Records(ls, scriptName)|
  {
    text, count := "", 0;
    for i := 0 to |ls|
      invariant text == Serialize(Records(ls[..i], scriptName))
      invariant count == |Records(ls[..i], scriptName)|
    {
      var l := ls[i];
      CreateStep(ls, i, scriptName);
      if !IsOwnFile(l.name, scriptName) {
        var fileHash := l.payload;
        if Recorded(fileHash) {
          text := text + RecordLine(RecordOf(l));
          count := count + 1;
        }
      }
    }
    assert ls[..|ls|] == ls;
  }

  /** One more listed file: its line is written iff it is recorded. */
  lemma CreateStep(ls: seq<Listing<Option<Digest>>>, i: nat, scriptName: string)
    requires i < |ls|
    ensures !IsOwnFile(ls[i].name, scriptName) && Recorded(ls[i].payload) ==>
      Serialize(Records(ls[..i + 1], scriptName)) == Serialize(Records(ls[..i], scriptName)) + RecordLine(RecordOf(ls[i]))
      && |Records(ls[..i + 1], scriptName)| == |Records(ls[..i], scriptName)| + 1
    ensures IsOwnFile(ls[i].name, scriptName) || !Recorded(ls[i].payload) ==> Records(ls[..i + 1], scriptName) == Records(ls[..i], scriptName)
  {
    var l := ls[i];
    var rs := Records(ls[..i], scriptName);
    assert ls[..i + 1][..i] == ls[..i];
    assert Records(ls[..i + 1], scriptName) == rs + (if Kept(l, scriptName) then [RecordOf(l)] else []);
    if Kept(l, scriptName) {
      SerializeAppend(rs, RecordOf(l));
    } else {
      assert rs + [] == rs;
    }
  }

  /** Python's `str.isspace`: the characters `strip()` removes. */
  predicate IsSpace(c: char) {
    c == ' ' || ('\t' <= c <= '\r') || ('\U{1C}' <= c <= '\U{1F}') || c == '\U{85}' || c == '\U{A0}'
    || c == '\U{1680}' || ('\U{2000}' <= c <= '\U{200A}') || c == '\U{2028}' || c == '\U{2029}'
    || c == '\U{202F}' || c == '\U{205F}' || c == '\U{3000}'
  }

  /**
    The whitespace table of CPython's `str.isspace`, written out character by
    character: the ASCII characters 0x09-0x0D, 0x1C-0x1F and 0x20, and the
    other characters of Unicode's whitespace set.
   */
  function PythonWhitespace(): set<char> {
    {
      '\t', '\n', '\U{0B}', '\U{0C}', '\r', '\U{1C}', '\U{1D}', '\U{1E}', '\U{1F}', ' ',
      '\U{85}', '\U{A0}', '\U{1680}',
      '\U{2000}', '\U{2001}', '\U{2002}', '\U{2003}', '\U{2004}', '\U{2005}',
      '\U{2006}', '\U{2007}', '\U{2008}', '\U{2009}', '\U{200A}',
      '\U{2028}', '\U{2029}', '\U{202F}', '\U{205F}', '\U{3000}'
    }
  }

  /** `IsSpace` holds of exactly the characters in CPython's whitespace table; the delimiter `|` is not one of them. */
  lemma IsSpaceIsPythonWhitespace(c: char)
    ensures IsSpace(c) <==> c in PythonWhitespace()
    ensures !IsSpace('|')
  {
  }

  /** Leading whitespace removed, and no more. */
  function LStrip(s: string): (r: string)
    ensures |r| <= |s| && r == s[|s| - |r|..]
    ensures forall i :: 0 <= i < |s| - |r| ==> IsSpace(s[i])
    ensures r == [] || !IsSpace(r[0])
  {
    if s != [] && IsSpace(s[0]) then
      var r := LStrip(s[1..]);
      assert s[1..][|s| - 1 - |r|..] == s[|s| - |r|..];
      assert forall i :: 1 <= i < |s| - |r| ==> s[i] == s[1..][i - 1];
      r
    else s
  }

  /** Trailing whitespace removed, and no more. */
  function RStrip(s: string): (r: string)
    ensures |r| <= |s| && r == s[..|r|]
    ensures forall i :: |r| <= i < |s| ==> IsSpace(s[i])
    ensures r == [] || !IsSpace(r[|r| - 1])
  {
    if s != [] && IsSpace(s[|s| - 1]) then
      var r := RStrip(s[..|s| - 1]);
      assert s[..|s| - 1][..|r|] == s[..|r|];
      assert forall i :: |r| <= i < |s| - 1 ==> s[i] == s[..|s| - 1][i];
      r
    else s
  }

  /** `str.strip()`: no whitespace is left at either end. */
  function Strip(s: string): (r: string)
    ensures |r| <= |s|
    ensures r == [] || (!IsSpace(r[0]) && !IsSpace(r[|r| - 1]))
  {
    RStrip(LStrip(s))
  }

  /** `r` is `s` with whitespace, and only whitespace, cut from its two ends: `i` characters from the front. */
  predicate IsMiddle(s: string, i: int, r: string) {
    0 <= i <= |s| - |r| && AllSpace(s[..i]) && r == s[i..i + |r|] && AllSpace(s[i + |r|..])
  }

  /** What `strip()` removes is whitespace at the two ends, and nothing else. */
  lemma {:induction false} StripIsMiddle(s: string)
    ensures exists i :: IsMiddle(s, i, Strip(s))
  {
    var l := LStrip(s);
    LeadingSpace(s);
    TrailingSpace(l);
    MiddleSlice(s, l, Strip(s));
  }

  /** `r`, a prefix of the suffix `l` of `s`, with only whitespace around it. */
  lemma {:induction false} MiddleSlice(s: string, l: string, r: string)
    requires |l| <= |s| && l == s[|s| - |l|..] && AllSpace(s[..|s| - |l|])
    requires |r| <= |l| && r == l[..|r|] && AllSpace(l[|r|..])
    ensures IsMiddle(s, |s| - |l|, r)
  {
    var i := |s| - |l|;
    var tail := s[i + |r|..];
    assert tail == l[|r|..];
  }

  /** The characters `LStrip` drops are whitespace. */
  lemma {:induction false} LeadingSpace(s: string)
    ensures AllSpace(s[..|s| - |LStrip(s)|])
  {
    var h := s[..|s| - |LStrip(s)|];
    assert forall k :: 0 <= k < |h| ==> h[k] == s[k];
  }

  /** The characters `RStrip` drops are whitespace. */
  lemma {:induction false} TrailingSpace(l: string)
    ensures AllSpace(l[|RStrip(l)|..])
  {
    var r := RStrip(l);
    var t := l[|r|..];
    assert forall k :: 0 <= k < |t| ==> t[k] == l[|r| + k];
  }

  predicate AllSpace(t: string) {
    forall k :: 0 <= k < |t| ==> IsSpace(t[k])
  }

  /** A character that is not whitespace survives stripping. */
  lemma {:induction false} StripKeeps(s: string, c: char)
    requires c in s && !IsSpace(c)
    ensures c in Strip(s)
  {
    var k :| 0 <= k < |s| && s[k] == c;
    var l := LStrip(s);
    assert l[k - (|s| - |l|)] == c;
    var r := RStrip(l);
    assert r[k - (|s| - |l|)] == c;
  }

  /** The position of the first `c` in `s`. */
  function IndexOf(s: string, c: char): (i: nat)
    requires c in s
    ensures i < |s| && s[i] == c && c !in s[..i]
  {
    if s[0] == c then 0
    else
      assert c in s[1..];
      var j := IndexOf(s[1..], c);
      assert s[..j + 1] == [s[0]] + s[1..][..j];
      1 + j
  }

  /** `os.path.isabs` on POSIX. */
  predicate IsAbs(p: Path) {
    |p| > 0 && p[0] == '/'
  }

  /**
    One line of the baseline file: nothing when it holds no '|'; otherwise the
    stripped line split at its first '|', the path made absolute with
    `absPath` (`os.path.abspath`) when it is relative.
   */
  function ParseLine(line: string, absPath: Path -> Path): (r: Option<(Path, Digest)>)
    ensures r.None? <==> '|' !in line
  {
    if '|' !in line then None
    else
      var s := Strip(line);
      StripKeeps(line, '|');
      var i := IndexOf(s, '|');
      var path := s[..i];
      Some((if IsAbs(path) then path else absPath(path), s[i + 1..]))
  }

  /** The records the loader takes from `lines`, in order. */
  function ParsedRecords(lines: seq<string>, absPath: Path -> Path): (rs: seq<(Path, Digest)>)
    ensures |rs| <= |lines|
  {
    if lines == [] then []
    else
      var r := ParseLine(lines[|lines| - 1], absPath);
      ParsedRecords(lines[..|lines| - 1], absPath) + (if r.Some? then [r.value] else [])
  }

  /** Every record the loader takes comes from the parse of one of the lines. */
  lemma {:induction false} ParsedRecordsFrom(lines: seq<string>, absPath: Path -> Path)
    ensures forall x :: x in ParsedRecords(lines, absPath) ==> exists i :: 0 <= i < |lines| && ParseLine(lines[i], absPath) == Some(x)
  {
    if lines != [] {
      var init := lines[..|lines| - 1];
      var last := ParseLine(lines[|lines| - 1], absPath);
      ParsedRecordsFrom(init, absPath);
      assert ParsedRecords(lines, absPath) == ParsedRecords(init, absPath) + (if last.Some? then [last.value] else []);
      forall x | x in ParsedRecords(lines, absPath)
        ensures exists i :: 0 <= i < |lines| && ParseLine(lines[i], absPath) == Some(x)
      {
        if x in ParsedRecords(init, absPath) {
          var i :| 0 <= i < |init| && ParseLine(init[i], absPath) == Some(x);
          assert lines[i] == init[i];
        } else {
          assert ParseLine(lines[|lines| - 1], absPath) == Some(x);
        }
      }
    }
  }

  /** Every line holding a '|' gives the loader a record. */
  lemma {:induction false} ParsedRecordsHas(lines: seq<string>, absPath: Path -> Path, i: nat)
    requires i < |lines| && '|' in lines[i]
    ensures ParseLine(lines[i], absPath).value in ParsedRecords(lines, absPath)
  {
    var init := lines[..|lines| - 1];
    if i < |lines| - 1 {
      assert init[i] == lines[i];
      ParsedRecordsHas(init, absPath, i);
    }
  }

  /** The loader's records are exactly the parses of the lines holding a '|'. */
  lemma ParsedRecordsContents(lines: seq<string>, absPath: Path -> Path)
    ensures forall x :: x in ParsedRecords(lines, absPath) ==> exists i :: 0 <= i < |lines| && ParseLine(lines[i], absPath) == Some(x)
    ensures forall i :: 0 <= i < |lines| && '|' in lines[i] ==> ParseLine(lines[i], absPath).value in ParsedRecords(lines, absPath)
  {
    ParsedRecordsFrom(lines, absPath);
    forall i | 0 <= i < |lines| && '|' in lines[i] {
      ParsedRecordsHas(lines, absPath, i);
    }
  }

  /** Newline translation of a file read in text mode: "\r\n" and a lone "\r" both read as "\n". */
  function Translate(s: string): (r: string)
    ensures '\r' !in r
    ensures '\r' !in s ==> r == s
    decreases |s|
  {
    if s == [] then []
    else if s[0] == '\r' then "\n" + Translate(if |s| > 1 && s[1] == '\n' then s[2..] else s[1..])
    else [s[0]] + Translate(s[1..])
  }

  /** A text as text mode writes it on Windows: each "\n" goes out as "\r\n". */
  function CrLf(s: string): string {
    if s == [] then [] else (if s[0] == '\n' then "\r\n" else [s[0]]) + CrLf(s[1..])
  }

  /** A text with classic Mac line ends: each "\n" as a lone "\r". */
  function CrOnly(s: string): (r: string)
    ensures '\n' !in r
  {
    if s == [] then [] else (if s[0] == '\n' then "\r" else [s[0]]) + CrOnly(s[1..])
  }

  /** A file written with "\r\n" line ends reads back as the text with "\n" line ends. */
  lemma {:induction false} TranslateCrLf(s: string)
    requires '\r' !in s
    ensures Translate(CrLf(s)) == s
  {
    if s != [] {
      var t := CrLf(s);
      assert '\r' !in s[1..];
      TranslateCrLf(s[1..]);
      if s[0] == '\n' {
        assert t == "\r\n" + CrLf(s[1..]);
        assert t[2..] == CrLf(s[1..]);
      } else {
        assert t == [s[0]] + CrLf(s[1..]);
        assert t[1..] == CrLf(s[1..]);
      }
      assert s == [s[0]] + s[1..];
    }
  }

  /** A file written with lone "\r" line ends reads back as the text with "\n" line ends. */
  lemma {:induction false} TranslateCrOnly(s: string)
    requires '\r' !in s
    ensures Translate(CrOnly(s)) == s
  {
    if s != [] {
      var t := CrOnly(s);
      assert '\r' !in s[1..];
      TranslateCrOnly(s[1..]);
      var rest := CrOnly(s[1..]);
      assert t[1..] == rest;
      if s[0] == '\n' {
        assert t[0] == '\r';
        assert |t| > 1 ==> t[1] == rest[0] && rest[0] in rest;
        assert Translate(t) == "\n" + Translate(rest);
      } else {
        assert t[0] == s[0];
        assert Translate(t) == [s[0]] + Translate(rest);
      }
      assert s == [s[0]] + s[1..];
    }
  }

  function Concat(lines: seq<string>): string {
    if lines == [] then "" else lines[0] + Concat(lines[1..])
  }

  /** Iterating over a text file: each line keeps its "\n", the last one may have none. */
  function SplitLines(s: string): (lines: seq<string>)
    ensures Concat(lines) == s
    ensures forall i :: 0 <= i < |lines| ==> lines[i] != "" && '\n' !in lines[i][..|lines[i]| - 1]
    ensures forall i :: 0 <= i < |lines| - 1 ==> lines[i][|lines[i]| - 1] == '\n'
    decreases |s|
  {
    if s == [] then []
    else if '\n' !in s then [s]
    else
      var i := IndexOf(s, '\n');
      var rest := SplitLines(s[i + 1..]);
      SplitOffLine(s, i, s[..i + 1], rest);
      [s[..i + 1]] + rest
  }

  /** The first line `line`, up to and including the first newline, put in front of the lines of the rest. */
  lemma SplitOffLine(s: string, i: nat, line: string, rest: seq<string>)
    requires i < |s| && s[i] == '\n' && '\n' !in s[..i] && line == s[..i + 1]
    requires Concat(rest) == s[i + 1..]
    requires forall k :: 0 <= k < |rest| ==> rest[k] != "" && '\n' !in rest[k][..|rest[k]| - 1]
    requires forall k :: 0 <= k < |rest| - 1 ==> rest[k][|rest[k]| - 1] == '\n'
    ensures Concat([line] + rest) == s
    ensures forall k :: 0 <= k < |[line] + rest| ==> ([line] + rest)[k] != "" && '\n' !in ([line] + rest)[k][..|([line] + rest)[k]| - 1]
    ensures forall k :: 0 <= k < |[line] + rest| - 1 ==> ([line] + rest)[k][|([line] + rest)[k]| - 1] == '\n'
  {
    assert line[i] == '\n' && '\n' !in line[..i] by {
      assert line[..i] == s[..i];
    }
    PrependLine(line, rest);
    assert line + s[i + 1..] == s;
  }

  /** A line ending in its only "\n", put in front of a split, gives a split of the concatenation. */
  lemma {:induction false} PrependLine(line: string, rest: seq<string>)
    requires line != [] && line[|line| - 1] == '\n' && '\n' !in line[..|line| - 1]
    requires forall i :: 0 <= i < |rest| ==> rest[i] != "" && '\n' !in rest[i][..|rest[i]| - 1]
    requires forall i :: 0 <= i < |rest| - 1 ==> rest[i][|rest[i]| - 1] == '\n'
    ensures Concat([line] + rest) == line + Concat(rest)
    ensures forall i :: 0 <= i < |[line] + rest| ==> ([line] + rest)[i] != "" && '\n' !in ([line] + rest)[i][..|([line] + rest)[i]| - 1]
    ensures forall i :: 0 <= i < |[line] + rest| - 1 ==> ([line] + rest)[i][|([line] + rest)[i]| - 1] == '\n'
  {
    assert ([line] + rest)[1..] == rest;
  }

  /** The baseline loader: `None` when there is no baseline file, a dictionary (possibly empty) otherwise. */
  function Load(file: Option<string>, absPath: Path -> Path): (r: Option<Dict>)
    ensures r.None? <==> file.None?
    ensures r.Some? ==> r.value.Valid()
  {
    match file
    case None => None
    case Some(text) => Some(ToDict(ParsedRecords(SplitLines(Translate(text)), absPath)))
  }

  /** `load_baseline`, filling the dictionary line by line. */
  method LoadBaseline(file: Option<string>, absPath: Path -> Path) returns (baseline: Option<Dict>)
    ensures baseline == Load(file, absPath)
  {
    if file.None? {
      return None;
    }
    var lines := SplitLines(Translate(file.value));
    var d := Empty;
    for i := 0 to |lines|
      invariant d == ToDict(ParsedRecords(lines[..i], absPath))
    {
      LoadStep(lines, i, absPath);
      var record := ParseLine(lines[i], absPath);
      if record.Some? {
        var (filepath, fileHash) := record.value;
        d := d.Put(filepath, fileHash);
      }
    }
    assert lines[..|lines|] == lines;
    baseline := Some(d);
  }

  lemma IndexOfAt(s: string, c: char, k: nat)
    requires k < |s| && s[k] == c && c !in s[..k]
    ensures c in s && IndexOf(s, c) == k
  {
  }

  /** One more line read by the loader: its record, if any, is assigned into the dictionary. */
  lemma LoadStep(lines: seq<string>, i: nat, absPath: Path -> Path)
    requires i < |lines|
    ensures var r := ParseLine(lines[i], absPath);
      var d := ToDict(ParsedRecords(lines[..i], absPath));
      ToDict(ParsedRecords(lines[..i + 1], absPath)) == if r.Some? then d.Put(r.value.0, r.value.1) else d
  {
    ParsedRecordsStep(lines, i, absPath);
    var rs := ParsedRecords(lines[..i], absPath);
    var r := ParseLine(lines[i], absPath);
    if r.Some? {
      ToDictAppend(rs, r.value);
    } else {
      assert rs + [] == rs;
    }
  }

  lemma ParsedRecordsStep(lines: seq<string>, i: nat, absPath: Path -> Path)
    requires i < |lines|
    ensures var r := ParseLine(lines[i], absPath);
      ParsedRecords(lines[..i + 1], absPath) == ParsedRecords(lines[..i], absPath) + (if r.Some? then [r.value] else [])
  {
    assert lines[..i + 1][..i] == lines[..i];
  }

  /** A record line parses back to its path and digest when the path has no '|', starts with no whitespace and the digest ends with none. */
  lemma ParseRecordLine(r: (Path, Digest), absPath: Path -> Path)
    requires '|' !in r.0
    requires r.0 == [] || !IsSpace(r.0[0])
    requires r.1 == [] || !IsSpace(r.1[|r.1| - 1])
    ensures ParseLine(RecordLine(r), absPath) == Some((if IsAbs(r.0) then r.0 else absPath(r.0), r.1))
  {
    StripRecordLine(r);
    SplitAtFirstBar(r.0, r.1);
  }

  /**
    `line` is a record `p|h` with whitespace `w1` before it and `w2` after it,
    where `p` holds no '|', does not start with whitespace, and `h` does not
    end with whitespace.
   */
  predicate PaddedRecord(line: string, w1: string, p: Path, h: Digest, w2: string) {
    line == w1 + p + "|" + h + w2 && AllSpace(w1) && AllSpace(w2) && '|' !in p
    && (p == [] || !IsSpace(p[0])) && (h == [] || !IsSpace(h[|h| - 1]))
  }

  /**
    The parse of any line holding '|': it is stripped, split at its first '|',
    and the part before is made absolute.
   */
  lemma ParsePaddedRecord(line: string, w1: string, p: Path, h: Digest, w2: string, absPath: Path -> Path)
    requires PaddedRecord(line, w1, p, h, w2)
    ensures ParseLine(line, absPath) == Some((if IsAbs(p) then p else absPath(p), h))
  {
    var m := p + "|" + h;
    assert '|' in line && Strip(line) == m by {
      assert line == w1 + m + w2 by {
        ConcatAssoc(w1, p + "|", h);
        ConcatAssoc(w1, p, "|");
      }
      assert m[|p|] == '|';
      assert m[0] == (if p == [] then '|' else p[0]);
      assert m[|m| - 1] == (if h == [] then '|' else h[|h| - 1]);
      StripPadded(w1, m, w2);
      assert line[|w1| + |p|] == '|';
    }
    SplitAtFirstBar(p, h);
  }

  /** Every line holding '|' is a padded record, so `ParsePaddedRecord` gives the parse of every such line. */
  lemma LineIsPaddedRecord(line: string)
    requires '|' in line
    ensures exists w1, p, h, w2 :: PaddedRecord(line, w1, p, h, w2)
  {
    var s := Strip(line);
    StripKeeps(line, '|');
    StripIsMiddle(line);
    var i :| IsMiddle(line, i, s);
    var j := IndexOf(s, '|');
    var w1, p, h, w2 := line[..i], s[..j], s[j + 1..], line[i + |s|..];
    assert s == p + "|" + h by {
      SplitAround(s, j);
      assert [s[j]] == "|";
    }
    assert line == w1 + s + w2 by {
      SliceThree(line, i, |s|);
    }
    assert line == w1 + p + "|" + h + w2 by {
      ConcatAssoc(w1, p + "|", h);
      ConcatAssoc(w1, p, "|");
    }
    assert p != [] ==> p[0] == s[0];
    assert h != [] ==> h[|h| - 1] == s[|s| - 1];
    PaddedRecordWitness(line, w1, p, h, w2);
  }

  /** A padded-record split of `line`, as an existence fact. */
  lemma PaddedRecordWitness(line: string, w1: string, p: Path, h: Digest, w2: string)
    requires PaddedRecord(line, w1, p, h, w2)
    ensures exists w1', p', h', w2' :: PaddedRecord(line, w1', p', h', w2')
  {
  }

  /** Stripping removes exactly the whitespace around a middle part whose two ends are not whitespace. */
  lemma StripPadded(w1: string, m: string, w2: string)
    requires AllSpace(w1) && AllSpace(w2)
    requires m != [] && !IsSpace(m[0]) && !IsSpace(m[|m| - 1])
    ensures Strip(w1 + m + w2) == m
  {
    assert w1 + m + w2 == w1 + (m + w2);
    LStripSpaces(w1, m + w2);
    RStripSpaces(m, w2);
  }

  /** Leading whitespace before a part that starts with no whitespace is all `LStrip` removes. */
  lemma {:induction false} LStripSpaces(w: string, m: string)
    requires AllSpace(w) && m != [] && !IsSpace(m[0])
    ensures LStrip(w + m) == m
    decreases |w|
  {
    if w == [] {
      assert w + m == m;
    } else {
      assert (w + m)[0] == w[0] && (w + m)[1..] == w[1..] + m;
      LStripSpaces(w[1..], m);
    }
  }

  /** Trailing whitespace after a part that ends with no whitespace is all `RStrip` removes. */
  lemma {:induction false} RStripSpaces(m: string, w: string)
    requires AllSpace(w) && m != [] && !IsSpace(m[|m| - 1])
    ensures RStrip(m + w) == m
    decreases |w|
  {
    if w == [] {
      assert m + w == m;
    } else {
      var v := w[..|w| - 1];
      assert (m + w)[|m + w| - 1] == w[|w| - 1] && (m + w)[..|m + w| - 1] == m + v;
      RStripSpaces(m, v);
    }
  }

  /** The first '|' of `a|b` is the one after `a` when `a` has none. */
  lemma SplitAtFirstBar(a: string, b: string)
    requires '|' !in a
    ensures var s := a + "|" + b;
      '|' in s && IndexOf(s, '|') == |a| && s[..|a|] == a && s[|a| + 1..] == b
  {
    var s := a + "|" + b;
    assert s[|a|] == '|' && s[..|a|] == a && s[|a| + 1..] == b;
    IndexOfAt(s, '|', |a|);
  }

  /** Stripping a written line removes exactly its newline. */
  lemma StripRecordLine(r: (Path, Digest))
    requires r.0 == [] || !IsSpace(r.0[0])
    requires r.1 == [] || !IsSpace(r.1[|r.1| - 1])
    ensures '|' in RecordLine(r) && Strip(RecordLine(r)) == r.0 + "|" + r.1
  {
    var line := RecordLine(r);
    var body := r.0 + "|" + r.1;
    assert line == body + "\n";
    assert body[|r.0|] == '|';
    assert line[..|line| - 1] == body;
    assert IsSpace(line[|line| - 1]);
    assert RStrip(line) == RStrip(body);
    assert body[|body| - 1] == (if r.1 == [] then '|' else r.1[|r.1| - 1]);
    assert !IsSpace(body[|body| - 1]);
    assert RStrip(body) == body;
    assert line[0] == (if r.0 == [] then '|' else r.0[0]);
    assert !IsSpace(line[0]);
    assert LStrip(line) == line;
  }

  /** A line without '|' contributes nothing. */
  lemma LineWithoutDelimiterSkipped(before: seq<string>, line: string, after: seq<string>, absPath: Path -> Path)
    requires '|' !in line
    ensures ParsedRecords(before + [line] + after, absPath) == ParsedRecords(before + after, absPath)
  {
    ParsedRecordsAppend(before + [line], after, absPath);
    ParsedRecordsAppend(before, [line], absPath);
    ParsedRecordsAppend(before, after, absPath);
    assert [line][..0] == [];
  }

  lemma {:induction false} ParsedRecordsAppend(a: seq<string>, b: seq<string>, absPath: Path -> Path)
    ensures ParsedRecords(a + b, absPath) == ParsedRecords(a, absPath) + ParsedRecords(b, absPath)
  {
    if b != [] {
      assert (a + b)[..|a + b| - 1] == a + b[..|b| - 1];
      ParsedRecordsAppend(a, b[..|b| - 1], absPath);
    } else {
      assert a + b == a;
    }
  }

  /** A record the loader reads back unchanged: an absolute path without '|', newline or carriage return, a digest without these line breaks ending in no whitespace. */
  predicate Loadable(r: (Path, Digest)) {
    IsAbs(r.0) && '|' !in r.0 && '\n' !in r.0 && '\r' !in r.0
    && '\n' !in r.1 && '\r' !in r.1 && (r.1 == [] || !IsSpace(r.1[|r.1| - 1]))
  }

  function RecordLines(rs: seq<(Path, Digest)>): seq<string> {
    if rs == [] then [] else [RecordLine(rs[0])] + RecordLines(rs[1..])
  }

  /** Splitting a line-terminated first line off a text. */
  lemma SplitFirstLine(line: string, rest: string)
    requires line != [] && line[|line| - 1] == '\n' && '\n' !in line[..|line| - 1]
    ensures SplitLines(line + rest) == [line] + SplitLines(rest)
  {
    var s := line + rest;
    assert s[..|line| - 1] == line[..|line| - 1];
    IndexOfAt(s, '\n', |line| - 1);
    assert s[|line|..] == rest;
    assert s[..|line|] == line;
  }

  lemma {:induction false} SplitSerialized(rs: seq<(Path, Digest)>)
    requires forall r :: r in rs ==> Loadable(r)
    ensures SplitLines(Serialize(rs)) == RecordLines(rs)
  {
    if rs != [] {
      var line := RecordLine(rs[0]);
      assert rs[0] in rs;
      assert forall r :: r in rs[1..] ==> r in rs;
      assert line[..|line| - 1] == rs[0].0 + "|" + rs[0].1;
      SplitFirstLine(line, Serialize(rs[1..]));
      SplitSerialized(rs[1..]);
    }
  }

  lemma {:induction false} ParsedRecordsSingle(line: string, absPath: Path -> Path)
    ensures var r := ParseLine(line, absPath); ParsedRecords([line], absPath) == if r.Some? then [r.value] else []
  {
    assert [line][..0] == [];
  }

  /** A loadable record's line reads back as that record. */
  lemma ParseLoadable(r: (Path, Digest), absPath: Path -> Path)
    requires Loadable(r)
    ensures ParsedRecords([RecordLine(r)], absPath) == [r]
  {
    assert r.0[0] == '/';
    ParseRecordLine(r, absPath);
    ParsedRecordsSingle(RecordLine(r), absPath);
  }

  lemma {:induction false} ParseRecordLines(rs: seq<(Path, Digest)>, absPath: Path -> Path)
    requires forall r :: r in rs ==> Loadable(r)
    ensures ParsedRecords(RecordLines(rs), absPath) == rs
  {
    if rs != [] {
      assert rs == [rs[0]] + rs[1..];
      assert rs[0] in rs;
      assert forall r :: r in rs[1..] ==> r in rs;
      ParseRecordLines(rs[1..], absPath);
      ParseLoadable(rs[0], absPath);
      ParsedRecordsAppend([RecordLine(rs[0])], RecordLines(rs[1..]), absPath);
    }
  }

  lemma {:induction false} SerializedHasNoCarriageReturn(rs: seq<(Path, Digest)>)
    requires forall r :: r in rs ==> Loadable(r)
    ensures '\r' !in Serialize(rs)
  {
    if rs != [] {
      assert rs[0] in rs;
      assert forall r :: r in rs[1..] ==> r in rs;
      SerializedHasNoCarriageReturn(rs[1..]);
    }
  }

  /** Round trip: loading what was written gives back the dictionary of the records, same keys, same digests, same order. */
  lemma LoadSerialized(rs: seq<(Path, Digest)>, absPath: Path -> Path)
    requires forall r :: r in rs ==> Loadable(r)
    ensures Load(Some(Serialize(rs)), absPath) == Some(ToDict(rs))
  {
    SerializedHasNoCarriageReturn(rs);
    SplitSerialized(rs);
    ParseRecordLines(rs, absPath);
  }

  /** Loading the file baseline creation writes gives the dictionary of the recorded files. */
  lemma LoadCreatedBaseline(ls: seq<Listing<Option<Digest>>>, scriptName: string, absPath: Path -> Path)
    requires forall i :: 0 <= i < |ls| && Kept(ls[i], scriptName) ==> Loadable(RecordOf(ls[i]))
    ensures Load(Some(Serialize(Records(ls, scriptName))), absPath) == Some(ToDict(Records(ls, scriptName)))
  {
    RecordsContents(ls, scriptName);
    LoadSerialized(Records(ls, scriptName), absPath);
  }

  /** A baseline written with Windows line ends loads the same as one written with "\n" line ends. */
  lemma LoadSerializedCrLf(rs: seq<(Path, Digest)>, absPath: Path -> Path)
    requires forall r :: r in rs ==> Loadable(r)
    ensures Load(Some(CrLf(Serialize(rs))), absPath) == Some(ToDict(rs))
  {
    SerializedHasNoCarriageReturn(rs);
    TranslateCrLf(Serialize(rs));
    LoadSerialized(rs, absPath);
  }
}
