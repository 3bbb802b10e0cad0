/**
  A record log as the bytes of a text file: what `f.readline()` returns after
  `f.seek(offset)`, the lines `for line in f` yields, and what a write at an
  offset in `'r+'` mode does to the file.
 */
module RecordLog {
  import opened Base

  /** The first line of `s`: everything up to and including the first `'\n'`, or all of `s`. */
  function TakeLine(s: string): (line: string)
    ensures |line| <= |s|
    ensures s != [] ==> |line| > 0
    decreases |s|
  {
    if s == [] then [] else if s[0] == '\n' then "\n" else [s[0]] + TakeLine(s[1..])
  }

  /** The first line is a prefix of `s` that ends at its first newline, or at the end of `s`. */
  lemma {:induction false} TakeLineShape(s: string)
    ensures TakeLine(s) == s[..|TakeLine(s)|]
    ensures forall k :: 0 <= k < |TakeLine(s)| - 1 ==> TakeLine(s)[k] != '\n'
    ensures |TakeLine(s)| == |s| || TakeLine(s)[|TakeLine(s)| - 1] == '\n'
    decreases |s|
  {
    if s != [] && s[0] != '\n' {
      TakeLineShape(s[1..]);
    }
  }

  /** A newline, if the line has one, is its last character. */
  predicate NewlineOnlyAtEnd(l: string) {
    forall k :: 0 <= k < |l| - 1 ==> l[k] != '\n'
  }

  /** A line that ends with its only newline. */
  predicate IsTerminatedLine(l: string) {
    |l| > 0 && l[|l| - 1] == '\n' && forall k :: 0 <= k < |l| - 1 ==> l[k] != '\n'
  }

  /** The text is empty or ends with a newline: appending to it starts a new line. */
  predicate EndsWithNewline(s: string) {
    s == [] || s[|s| - 1] == '\n'
  }

  lemma {:induction false} TakeLineOf(l: string, rest: string)
    requires IsTerminatedLine(l)
    ensures TakeLine(l + rest) == l
  {
    var s := l + rest;
    TakeLineShape(s);
    var p := TakeLine(s);
    assert p == s[..|l|] == l;
  }

  /** `f.seek(offset); f.readline()`. */
  function LineAt(content: string, offset: nat): (line: string)
    ensures line == [] || offset + |line| <= |content|
    ensures offset < |content| ==> |line| > 0
  {
    if offset >= |content| then [] else TakeLine(content[offset..])
  }

  /**
    The line at `offset` is the slice of the text from there to its first
    newline, that newline included, or to the end of the text.
   */
  lemma {:induction false} LineAtShape(content: string, offset: nat)
    requires offset < |content|
    ensures LineAt(content, offset) == content[offset..offset + |LineAt(content, offset)|]
    ensures NewlineOnlyAtEnd(LineAt(content, offset))
    ensures offset + |LineAt(content, offset)| == |content| ||
      LineAt(content, offset)[|LineAt(content, offset)| - 1] == '\n'
  {
    TakeLineShape(content[offset..]);
  }

  /** `offset` is where a line begins (or the end of the text). */
  predicate IsLineStart(content: string, offset: nat) {
    offset <= |content| && (offset == 0 || content[offset - 1] == '\n')
  }

  /** The lines `for line in f` yields, each with its newline. */
  function Lines(content: string): (ls: seq<string>)
    ensures forall i :: 0 <= i < |ls| ==> ls[i] != [] && NewlineOnlyAtEnd(ls[i])
    decreases |content|
  {
    if content == [] then [] else
      var l := TakeLine(content);
      TakeLineShape(content);
      var rest := Lines(content[|l|..]);
      assert forall i :: 1 <= i < |rest| + 1 ==> ([l] + rest)[i] == rest[i - 1];
      [l] + rest
  }

  /**
    `f.seek(offset); f.write(data)` on a file opened with `'r+'`: the bytes
    from `offset` on are replaced, nothing is inserted, and the file only
    grows if `data` runs past its end (a seek past the end leaves a gap of
    zero bytes).
   */
  function Overwrite(content: string, offset: nat, data: string): (r: string)
    ensures |r| == if offset + |data| <= |content| then |content| else offset + |data|
    ensures r[offset..offset + |data|] == data
    ensures forall k :: 0 <= k < offset && k < |content| ==> r[k] == content[k]
    ensures forall k :: offset + |data| <= k < |content| ==> r[k] == content[k]
  {
    var base := if offset <= |content| then content else content + seq(offset - |content|, _ => '\0');
    var r := base[..offset] + data + (if offset + |data| < |base| then base[offset + |data|..] else []);
    assert r[offset..offset + |data|] == data;
    r
  }

  // ---- appending -----------------------------------------------------------

  /** The line written at the old end of the file reads back. */
  lemma {:induction false} ReadAppended(content: string, data: string)
    requires '\n' !in data
    ensures LineAt(content + data + "\n", |content|) == data + "\n"
  {
    var c := content + data + "\n";
    assert c[|content|..] == (data + "\n") + [];
    TakeLineOf(data + "\n", []);
  }

  /** The line that ends with a newline at or before the end of `content`. */
  lemma {:induction false} LineEndsBefore(content: string, p: nat, end: nat)
    requires p < end <= |content| && content[end - 1] == '\n'
    ensures IsTerminatedLine(LineAt(content, p)) && p + |LineAt(content, p)| <= end
  {
    LineAtShape(content, p);
    var l := LineAt(content, p);
    assert content[p..][end - 1 - p] == '\n';
  }

  /** The line that ends with its newline is kept whatever follows it. */
  lemma {:induction false} LineKeptByExtension(content: string, content': string, p: nat, end: nat)
    requires p < end <= |content| && end <= |content'| && content[end - 1] == '\n'
    requires content'[..end] == content[..end]
    ensures LineAt(content', p) == LineAt(content, p)
  {
    LineEndsBefore(content, p, end);
    LineAtShape(content, p);
    var l := LineAt(content, p);
    assert content'[p..] == l + content'[p + |l|..];
    TakeLineOf(l, content'[p + |l|..]);
  }

  /** Appending to a file that ends with a newline keeps every line it had. */
  lemma {:induction false} AppendKeepsLine(content: string, extra: string, p: nat)
    requires EndsWithNewline(content) && p < |content|
    ensures LineAt(content + extra, p) == LineAt(content, p)
  {
    assert (content + extra)[..|content|] == content[..|content|];
    LineKeptByExtension(content, content + extra, p, |content|);
  }

  lemma {:induction false} LinesAppend(a: string, b: string)
    requires EndsWithNewline(a)
    ensures Lines(a + b) == Lines(a) + Lines(b)
    decreases |a|
  {
    if a != [] {
      var l := TakeLine(a);
      FirstLineOfAppend(a, b);
      LinesAppend(a[|l|..], b);
    } else {
      assert a + b == b;
    }
  }

  /** Before `b`, the text `a` that ends with a newline gives up its first line unchanged. */
  lemma {:induction false} FirstLineOfAppend(a: string, b: string)
    requires EndsWithNewline(a) && a != []
    ensures 0 < |TakeLine(a)| <= |a| && TakeLine(a + b) == TakeLine(a)
    ensures (a + b)[|TakeLine(a)|..] == a[|TakeLine(a)|..] + b && EndsWithNewline(a[|TakeLine(a)|..])
  {
    var l := TakeLine(a);
    LineEndsBefore(a, 0, |a|);
    LineAtShape(a, 0);
    assert a[0..] == a;
    assert a == l + a[|l|..];
    TakeLineOf(l, a[|l|..] + b);
    assert a + b == l + (a[|l|..] + b);
    assert (a + b)[|l|..] == a[|l|..] + b;
  }

  lemma {:induction false} LinesOfLine(l: string)
    requires IsTerminatedLine(l)
    ensures Lines(l) == [l]
  {
    TakeLineOf(l, []);
    assert l + [] == l;
  }

  // ---- rewriting in place --------------------------------------------------

  /** A record rewritten in place reads back at its offset. */
  lemma {:induction false} ReadOverwritten(content: string, offset: nat, line: string)
    requires IsTerminatedLine(line)
    ensures LineAt(Overwrite(content, offset, line), offset) == line
  {
    var r := Overwrite(content, offset, line);
    assert r[offset..] == line + r[offset + |line|..];
    TakeLineOf(line, r[offset + |line|..]);
  }

  /** Inside a line there is no line start. */
  lemma {:induction false} NoLineStartInsideLine(content: string, offset: nat, q: nat)
    requires offset < q < offset + |LineAt(content, offset)|
    ensures !IsLineStart(content, q)
  {
    LineAtShape(content, offset);
    var l := LineAt(content, offset);
    assert content[q - 1] == l[q - 1 - offset];
  }

  /**
    Rewriting a terminated line at a line start keeps every line that begins
    before it, or at or after the end of what was written.
   */
  lemma {:induction false} OverwriteKeepsLine(content: string, offset: nat, line: string, q: nat)
    requires IsLineStart(content, offset) && IsTerminatedLine(line)
    requires IsLineStart(content, q) && (q < offset || offset + |line| <= q)
    ensures IsLineStart(Overwrite(content, offset, line), q)
    ensures LineAt(Overwrite(content, offset, line), q) == LineAt(content, q)
  {
    var r := Overwrite(content, offset, line);
    if q < offset {
      assert r[..offset] == content[..offset];
      LineKeptByExtension(content, r, q, offset);
    } else if q < |content| {
      assert r[q..] == content[q..];
      assert q > 0;
      if q - 1 == offset + |line| - 1 {
        assert r[q - 1] == line[|line| - 1];
      }
    }
  }

  /**
    The hazard of rewriting in place: a line that began strictly inside the
    span now written is gone; its offset reads the tail of the new line.
   */
  lemma {:induction false} OverwriteClobbersInside(content: string, offset: nat, line: string, q: nat)
    requires IsTerminatedLine(line) && offset < q < offset + |line|
    ensures !IsLineStart(Overwrite(content, offset, line), q)
    ensures LineAt(Overwrite(content, offset, line), q) == line[q - offset..]
  {
    var r := Overwrite(content, offset, line);
    assert r[q - 1] == line[q - 1 - offset];
    var tail := line[q - offset..];
    assert IsTerminatedLine(tail);
    assert r[q..] == tail + r[offset + |line|..];
    TakeLineOf(tail, r[offset + |line|..]);
  }

  /**
    A rewrite at a line start that is no longer than the line it replaces
    keeps every other line: what is written ends at or before the next line
    start. (A shorter rewrite leaves the tail of the old line behind as a
    line of its own.)
   */
  lemma {:induction false} OverwriteFitsKeepsLines(content: string, offset: nat, line: string)
    requires IsLineStart(content, offset) && IsTerminatedLine(line)
    requires |line| <= |LineAt(content, offset)|
    ensures forall q: nat :: IsLineStart(content, q) && q != offset ==>
      LineAt(Overwrite(content, offset, line), q) == LineAt(content, q)
  {
    forall q: nat | IsLineStart(content, q) && q != offset
      ensures LineAt(Overwrite(content, offset, line), q) == LineAt(content, q)
    {
      if offset < q < offset + |LineAt(content, offset)| {
        NoLineStartInsideLine(content, offset, q);
      }
      OverwriteKeepsLine(content, offset, line, q);
    }
  }

  /**
    A rewrite at a line start that is longer than the line it replaces
    destroys the line that followed: its offset is no longer a line start.
   */
  lemma {:induction false} OverwriteLongerClobbersNext(content: string, offset: nat, line: string)
    requires IsLineStart(content, offset) && IsTerminatedLine(line)
    requires offset + |LineAt(content, offset)| < |content|
    requires |LineAt(content, offset)| < |line|
    ensures IsLineStart(content, offset + |LineAt(content, offset)|)
    ensures !IsLineStart(Overwrite(content, offset, line), offset + |LineAt(content, offset)|)
  {
    LineAtShape(content, offset);
    var held := LineAt(content, offset);
    var next := offset + |held|;
    assert content[offset..][|held| - 1] == held[|held| - 1] == '\n';
    OverwriteClobbersInside(content, offset, line, next);
  }

  /** Writing `b` back over a shorter `a` that replaced it restores the text. */
  lemma {:induction false} OverwriteUndone(content: string, offset: nat, a: string, b: string)
    requires offset + |b| <= |content| && |a| <= |b| && content[offset..offset + |b|] == b
    ensures Overwrite(Overwrite(content, offset, a), offset, b) == content
  {
    var r1 := Overwrite(content, offset, a);
    var r2 := Overwrite(r1, offset, b);
    forall k | 0 <= k < |content| ensures r2[k] == content[k] {
      if offset <= k < offset + |b| {
        assert r2[k] == r2[offset..offset + |b|][k - offset];
        assert content[k] == content[offset..offset + |b|][k - offset];
      }
    }
  }

  /** A rewrite ending in a newline leaves a text that ends in a newline. */
  lemma {:induction false} OverwriteEndsWithNewline(content: string, offset: nat, line: string)
    requires EndsWithNewline(content) && IsTerminatedLine(line)
    ensures EndsWithNewline(Overwrite(content, offset, line))
  {
    var r := Overwrite(content, offset, line);
    if offset + |line| < |content| {
      var k := |content| - 1;
      assert offset + |line| <= k;
      assert r[k] == content[k];
    } else {
      var k := offset + |line| - 1;
      assert |r| == k + 1;
      assert r[offset..offset + |line|][|line| - 1] == r[k];
    }
  }

  // ---- scanning ------------------------------------------------------------

  /**
    `pos = f.tell(); line = f.readline(); while line: ...` from `position`:
    the first line `pick` accepts, and where it starts.
   */
  function FirstPicked<T>(content: string, pick: string -> Option<T>, position: nat): Option<(T, nat)>
    decreases |content| - position
  {
    if position >= |content| then None
    else
      var line := LineAt(content, position);
      if pick(line).Some? then Some((pick(line).value, position))
      else FirstPicked(content, pick, position + |line|)
  }

  /** One step of the scan: the line at `position` is taken, or the scan moves past it. */
  lemma {:induction false} FirstPickedStep<T>(content: string, pick: string -> Option<T>, position: nat)
    requires position < |content|
    ensures FirstPicked(content, pick, position) ==
      if pick(LineAt(content, position)).Some? then Some((pick(LineAt(content, position)).value, position))
      else FirstPicked(content, pick, position + |LineAt(content, position)|)
  {
  }

  /** No line that starts in `[from, to)` is accepted by `pick`. */
  predicate NonePicked<T>(content: string, pick: string -> Option<T>, from: nat, to: nat) {
    forall q :: from <= q < to && IsLineStart(content, q) ==> pick(LineAt(content, q)).None?
  }

  /**
    The scan from a line start finds the first accepted line from there on,
    and finds nothing exactly when no line from there on is accepted.
   */
  lemma {:induction false} FirstPickedIsFirst<T>(content: string, pick: string -> Option<T>, position: nat)
    requires IsLineStart(content, position) || position >= |content|
    ensures FirstPicked(content, pick, position).None? <==> NonePicked(content, pick, position, |content|)
    ensures FirstPicked(content, pick, position).Some? ==>
      var found := FirstPicked(content, pick, position).value;
      position <= found.1 < |content| && IsLineStart(content, found.1) &&
      pick(LineAt(content, found.1)) == Some(found.0) && NonePicked(content, pick, position, found.1)
    decreases |content| - position
  {
    if position < |content| {
      var line := LineAt(content, position);
      NextLineStart(content, position);
      if pick(line).None? {
        var next := position + |line|;
        FirstPickedIsFirst(content, pick, next);
        NonePickedSkip(content, pick, position, |content|);
        if FirstPicked(content, pick, next).Some? {
          NonePickedSkip(content, pick, position, FirstPicked(content, pick, next).value.1);
        }
      }
    }
  }

  /** A line the scan does not take can be skipped when asking whether none is taken. */
  lemma {:induction false} NonePickedSkip<T>(content: string, pick: string -> Option<T>, position: nat, to: nat)
    requires IsLineStart(content, position) && position < |content| && pick(LineAt(content, position)).None?
    requires position + |LineAt(content, position)| <= to
    ensures NonePicked(content, pick, position, to) <==> NonePicked(content, pick, position + |LineAt(content, position)|, to)
  {
    NextLineStart(content, position);
  }

  /** The line at a line start runs up to the next line start, or to the end of the file. */
  lemma {:induction false} NextLineStart(content: string, position: nat)
    requires IsLineStart(content, position) && position < |content|
    ensures var next := position + |LineAt(content, position)|;
      position < next <= |content| && (next < |content| ==> IsLineStart(content, next)) &&
      forall q :: position < q < next ==> !IsLineStart(content, q)
  {
    LineAtShape(content, position);
    var line := LineAt(content, position);
    var next := position + |line|;
    forall q | position < q < next ensures !IsLineStart(content, q) {
      NoLineStartInsideLine(content, position, q);
    }
    if next < |content| {
      assert content[next - 1] == line[|line| - 1];
    }
  }
}
