/**
  The offset index files (`models_index.txt`, `cars_index.txt`,
  `sales_index.txt`): one `key:offset` line per entry. Reading one is
  `_read_index_to_dict`, writing one is `_write_index`.
 */
module OffsetIndex {
  import opened Base
  import opened Text
  import opened RecordLog
  import opened Dicts

  type Index = Dict<string, int>

  /** What one line of an index file contributes. */
  datatype ParsedLine = Skip | Entry(key: string, offset: int) | Bad(text: string)

  function FirstColon(s: string): (i: nat)
    requires ':' in s
    ensures i < |s| && s[i] == ':' && ':' !in s[..i]
    decreases |s|
  {
    if s[0] == ':' then 0 else 1 + FirstColon(s[1..])
  }

  /**
    `parts = line.strip().split(':')`: a line with fewer than two parts is
    skipped, otherwise `parts[0]` is the key and `int(parts[1])` the offset.
   */
  function ParseIndexLine(line: string): ParsedLine {
    SplitEntry(Strip(line))
  }

  function SplitEntry(s: string): ParsedLine {
    if ':' !in s then Skip
    else
      var i := FirstColon(s);
      var rest := s[i + 1..];
      var part := if ':' in rest then rest[..FirstColon(rest)] else rest;
      match ParseInt(part)
      case Some(offset) => Entry(s[..i], offset)
      case None => Bad(part)
  }

  function ParseLines(lines: seq<string>): (ps: seq<ParsedLine>)
    ensures |ps| == |lines|
    ensures forall i :: 0 <= i < |lines| ==> ps[i] == ParseIndexLine(lines[i])
    decreases |lines|
  {
    if lines == [] then [] else ParseLines(lines[..|lines| - 1]) + [ParseIndexLine(lines[|lines| - 1])]
  }

  /**
    The dict the read loop builds from the parsed lines, in order: a skipped
    line changes nothing, an entry sets its key, a bad offset raises.
   */
  function BuildIndex(ps: seq<ParsedLine>): (r: Result<Index>)
    ensures r.Ok? ==> Distinct(r.value)
    ensures r.Fail? ==> r.error.BadOffset?
    decreases |ps|
  {
    if ps == [] then Ok([])
    else
      match BuildIndex(ps[..|ps| - 1])
      case Fail(e) => Fail(e)
      case Ok(d) =>
        match ps[|ps| - 1]
        case Skip => Ok(d)
        case Entry(k, v) => PutDistinct(d, k, v); Ok(Put(d, k, v))
        case Bad(t) => Fail(BadOffset(t))
  }

  /** The dict `_read_index_to_dict` returns for an existing file's contents. */
  function ParseIndex(content: string): Result<Index> {
    BuildIndex(ParseLines(Lines(content)))
  }

  /** A key that comes back unchanged from a write and a read of the index file. */
  predicate IsIndexKey(k: string) {
    ':' !in k && '\n' !in k && (k == [] || !IsSpace(k[0]))
  }

  /** `f"{key}:{offset}\n"`. */
  function EntryLine(key: string, offset: int): string {
    key + ":" + IntToString(offset) + "\n"
  }

  /** The file `_write_index` leaves: one entry line per key, in dict order. */
  function IndexText(d: Index): string
    decreases |d|
  {
    if d == [] then "" else IndexText(d[..|d| - 1]) + EntryLine(d[|d| - 1].0, d[|d| - 1].1)
  }

  // ---- one line ------------------------------------------------------------

  lemma {:induction false} EntryLineIsTerminated(key: string, offset: int)
    requires '\n' !in key
    ensures IsTerminatedLine(EntryLine(key, offset))
  {
    var num := IntToString(offset);
    var line := EntryLine(key, offset);
    forall k | 0 <= k < |line| - 1 ensures line[k] != '\n' {
      if k < |key| { assert line[k] == key[k]; }
      else if k > |key| { assert line[k] == num[k - |key| - 1]; }
    }
  }

  lemma {:induction false} ParseEntryLine(key: string, offset: int)
    requires IsIndexKey(key)
    ensures ParseIndexLine(EntryLine(key, offset)) == Entry(key, offset)
  {
    var num := IntToString(offset);
    var s := key + ":" + num;
    assert EntryLine(key, offset) == s + "\n";
    assert Trimmed(s) by {
      assert s[|s| - 1] == num[|num| - 1];
      assert key != [] ==> s[0] == key[0];
    }
    StripTerminatedLine(s);
    SplitEntryText(key, offset);
  }

  lemma {:induction false} SplitEntryText(key: string, offset: int)
    requires ':' !in key
    ensures SplitEntry(key + ":" + IntToString(offset)) == Entry(key, offset)
  {
    var num := IntToString(offset);
    var s := key + ":" + num;
    assert s[|key|] == ':';
    FirstColonAfter(key, num);
    assert s[..|key|] == key;
    assert s[|key| + 1..] == num;
    assert ':' !in num by {
      forall k | 0 <= k < |num| ensures num[k] != ':' { assert num[k] == '-' || IsDigit(num[k]); }
    }
    ParseIntOfIntToString(offset);
  }

  lemma {:induction false} FirstColonAfter(key: string, rest: string)
    requires ':' !in key
    ensures FirstColon(key + ":" + rest) == |key|
  {
    var s := key + ":" + rest;
    assert s[..|key|] == key;
    assert s[|key|] == ':';
  }

  /** A key read from a line holds no colon, no newline and no leading blank. */
  lemma {:induction false} EntryKeyIsIndexKey(line: string)
    requires NewlineOnlyAtEnd(line) && ParseIndexLine(line).Entry?
    ensures IsIndexKey(ParseIndexLine(line).key)
  {
    var s := Strip(line);
    var i := FirstColon(s);
    var j := StripIsSlice(line);
    forall k | 0 <= k < i
      ensures s[k] != '\n'
    {
      assert s[k] == line[j + k];
    }
  }

  // ---- whole files ---------------------------------------------------------

  function EntryLines(d: Index): (ls: seq<string>)
    decreases |d|
  {
    if d == [] then [] else EntryLines(d[..|d| - 1]) + [EntryLine(d[|d| - 1].0, d[|d| - 1].1)]
  }

  lemma {:induction false} IndexTextLines(d: Index)
    requires forall k :: k in Keys(d) ==> '\n' !in k
    ensures EndsWithNewline(IndexText(d))
    ensures Lines(IndexText(d)) == EntryLines(d)
    decreases |d|
  {
    if d != [] {
      var front := d[..|d| - 1];
      var (k, v) := d[|d| - 1];
      assert forall i :: 0 <= i < |front| ==> Keys(front)[i] == Keys(d)[i];
      IndexTextLines(front);
      assert k == Keys(d)[|d| - 1];
      var line := EntryLine(k, v);
      EntryLineIsTerminated(k, v);
      LinesAppend(IndexText(front), line);
      LinesOfLine(line);
    }
  }

  lemma {:induction false} ParseEntryLines(d: Index)
    requires Distinct(d) && forall k :: k in Keys(d) ==> IsIndexKey(k)
    ensures BuildIndex(ParseLines(EntryLines(d))) == Ok(d)
    decreases |d|
  {
    if d != [] {
      var front := d[..|d| - 1];
      assert forall i :: 0 <= i < |front| ==> Keys(front)[i] == Keys(d)[i];
      assert d[|d| - 1].0 == Keys(d)[|d| - 1];
      ParseEntryLines(front);
      SplitLast(d);
      ParseEntryLinesStep(front, d[|d| - 1].0, d[|d| - 1].1);
    }
  }

  lemma {:induction false} SplitLast<T>(s: seq<T>)
    requires s != []
    ensures s == s[..|s| - 1] + [s[|s| - 1]]
  {
  }

  lemma {:induction false} ParseEntryLinesStep(front: Index, k: string, v: int)
    requires BuildIndex(ParseLines(EntryLines(front))) == Ok(front)
    requires IsIndexKey(k) && k !in Keys(front)
    ensures BuildIndex(ParseLines(EntryLines(front + [(k, v)]))) == Ok(front + [(k, v)])
  {
    var d := front + [(k, v)];
    assert d[..|d| - 1] == front;
    assert EntryLines(d) == EntryLines(front) + [EntryLine(k, v)];
    ParseEntryLine(k, v);
    PutAppends(front, k, v);
    ParseLinesSnoc(EntryLines(front), EntryLine(k, v));
    BuildSnoc(ParseLines(EntryLines(front)), Entry(k, v));
  }

  /** Writing a dict with `_write_index` and reading it back gives the same dict, in the same order. */
  lemma {:induction false} IndexRoundTrip(d: Index)
    requires Distinct(d) && forall k :: k in Keys(d) ==> IsIndexKey(k)
    ensures ParseIndex(IndexText(d)) == Ok(d)
  {
    IndexTextLines(d);
    ParseEntryLines(d);
  }

  /**
    `_update_index` appends one entry line; reading the file afterwards gives
    the old dict with `key` set to `offset` (the last line for a key wins).
   */
  lemma {:induction false} AppendEntryLine(text: string, key: string, offset: int)
    requires EndsWithNewline(text) && IsIndexKey(key)
    ensures ParseIndex(text + EntryLine(key, offset)) ==
      match ParseIndex(text)
      case Ok(d) => Ok(Put(d, key, offset))
      case Fail(e) => Fail(e)
  {
    var line := EntryLine(key, offset);
    EntryLineIsTerminated(key, offset);
    LinesAppend(text, line);
    LinesOfLine(line);
    ParseEntryLine(key, offset);
    ParseLinesSnoc(Lines(text), line);
  }

  lemma {:induction false} BuildSnoc(ps: seq<ParsedLine>, p: ParsedLine)
    ensures BuildIndex(ps + [p]) ==
      match BuildIndex(ps)
      case Fail(e) => Fail(e)
      case Ok(d) =>
        match p
        case Skip => Ok(d)
        case Entry(k, v) => Ok(Put(d, k, v))
        case Bad(t) => Fail(BadOffset(t))
  {
    assert (ps + [p])[..|ps|] == ps;
  }

  lemma {:induction false} ParseLinesSnoc(lines: seq<string>, line: string)
    ensures ParseLines(lines + [line]) == ParseLines(lines) + [ParseIndexLine(line)]
  {
    assert (lines + [line])[..|lines|] == lines;
  }

  lemma {:induction false} ParseLinesPrefixStep(lines: seq<string>, n: nat)
    requires n < |lines|
    ensures ParseLines(lines[..n + 1]) == ParseLines(lines[..n]) + [ParseIndexLine(lines[n])]
  {
    assert lines[..n + 1] == lines[..n] + [lines[n]];
    ParseLinesSnoc(lines[..n], lines[n]);
  }

  lemma {:induction false} BuildFailStep(ps: seq<ParsedLine>, p: ParsedLine)
    requires BuildIndex(ps).Fail?
    ensures BuildIndex(ps + [p]) == BuildIndex(ps)
  {
    BuildSnoc(ps, p);
  }

  /** Once the lines read so far have raised, reading the rest raises the same. */
  lemma {:induction false} BuildFailExtends(lines: seq<string>, n: nat)
    requires n <= |lines| && BuildIndex(ParseLines(lines[..n])).Fail?
    ensures BuildIndex(ParseLines(lines)) == BuildIndex(ParseLines(lines[..n]))
    decreases |lines| - n
  {
    if n < |lines| {
      ParseLinesPrefixStep(lines, n);
      BuildFailStep(ParseLines(lines[..n]), ParseIndexLine(lines[n]));
      BuildFailExtends(lines, n + 1);
    } else {
      assert lines[..n] == lines;
    }
  }

  // ---- what a read finds ---------------------------------------------------

  predicate HasEntryFor(p: ParsedLine, key: string) {
    p.Entry? && p.key == key
  }

  /** Line `j` is the last line that gives `key` an offset. */
  predicate IsLastEntryFor(ps: seq<ParsedLine>, j: nat, key: string) {
    j < |ps| && HasEntryFor(ps[j], key)
    && forall j' :: j < j' < |ps| ==> !HasEntryFor(ps[j'], key)
  }

  /**
    A successful read knows `key` exactly when some line gives `key` an
    offset, and then its offset is that of the last such line. Lines with
    fewer than two `:`-separated parts give no key.
   */
  lemma {:induction false} BuildIndexLookup(ps: seq<ParsedLine>, key: string)
    requires BuildIndex(ps).Ok?
    ensures Get(BuildIndex(ps).value, key).None? <==>
              forall j :: 0 <= j < |ps| ==> !HasEntryFor(ps[j], key)
    ensures forall j :: 0 <= j < |ps| && IsLastEntryFor(ps, j, key) ==>
              Get(BuildIndex(ps).value, key) == Some(ps[j].offset)
    decreases |ps|
  {
    if ps != [] {
      var front := ps[..|ps| - 1];
      var d := BuildIndex(front).value;
      BuildIndexLookup(front, key);
      assert forall j :: 0 <= j < |front| ==> front[j] == ps[j];
      match ps[|ps| - 1]
      case Skip =>
        assert forall j :: 0 <= j < |ps| && IsLastEntryFor(ps, j, key) ==> IsLastEntryFor(front, j, key);
      case Entry(k, v) =>
        PutGet(d, k, v, key);
        if k != key {
          assert forall j :: 0 <= j < |ps| && IsLastEntryFor(ps, j, key) ==> IsLastEntryFor(front, j, key);
        } else {
          assert HasEntryFor(ps[|ps| - 1], key);
        }
    }
  }

  /** The same, stated on the lines of the file. */
  lemma {:induction false} IndexLookup(content: string, key: string)
    requires ParseIndex(content).Ok?
    ensures var ps := ParseLines(Lines(content));
      && (Get(ParseIndex(content).value, key).None? <==> forall j :: 0 <= j < |ps| ==> !HasEntryFor(ps[j], key))
      && (forall j :: 0 <= j < |ps| && IsLastEntryFor(ps, j, key) ==>
            Get(ParseIndex(content).value, key) == Some(ps[j].offset))
  {
    var ps := ParseLines(Lines(content));
    assert ParseIndex(content) == BuildIndex(ps);
    BuildIndexLookup(ps, key);
  }

  /** Every key of a dict read from a file is an index key, so writing it back is lossless. */
  lemma {:induction false} BuiltKeysAreIndexKeys(ps: seq<ParsedLine>)
    requires forall i :: 0 <= i < |ps| && ps[i].Entry? ==> IsIndexKey(ps[i].key)
    requires BuildIndex(ps).Ok?
    ensures forall k :: k in Keys(BuildIndex(ps).value) ==> IsIndexKey(k)
    decreases |ps|
  {
    if ps != [] {
      var front := ps[..|ps| - 1];
      var d := BuildIndex(front).value;
      assert forall i :: 0 <= i < |front| ==> front[i] == ps[i];
      BuiltKeysAreIndexKeys(front);
      if ps[|ps| - 1].Entry? {
        var k := ps[|ps| - 1].key;
        var v := ps[|ps| - 1].offset;
        PutDistinct(d, k, v);
        if k !in Keys(d) {
          assert Keys(Put(d, k, v)) == Keys(d) + [k];
        }
      }
    }
  }

  lemma {:induction false} LoadedKeysAreIndexKeys(content: string)
    requires ParseIndex(content).Ok?
    ensures forall k :: k in Keys(ParseIndex(content).value) ==> IsIndexKey(k)
  {
    var lines := Lines(content);
    forall i | 0 <= i < |lines| && ParseLines(lines)[i].Entry?
      ensures IsIndexKey(ParseLines(lines)[i].key)
    {
      EntryKeyIsIndexKey(lines[i]);
    }
    BuiltKeysAreIndexKeys(ParseLines(lines));
  }
}
