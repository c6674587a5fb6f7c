/**
 Files as text.  Both files of the store are read with Rust's
 `BufRead::lines`, which splits at each line feed and drops one carriage
 return just before it; a final segment without a line feed is still a
 line, kept as it is.  Writers append `line ++ "\n"`.
 */
module Text {

  const LF: char := '\n'
  const CR: char := '\r'

  /** Ends with a line feed, or is empty: the next append starts a fresh line. */
  predicate Terminated(text: string) {
    |text| == 0 || text[|text| - 1] == LF
  }

  /** A line that survives a write-then-read unchanged: no line feed, no trailing carriage return. */
  predicate PlainLine(line: string) {
    LF !in line && (|line| == 0 || line[|line| - 1] != CR)
  }

  /** Position of the first line feed in `text`, or `|text|` if there is none. */
  function LineEnd(text: string): (k: nat)
    ensures k <= |text|
    ensures forall i :: 0 <= i < k ==> text[i] != LF
    ensures k < |text| ==> text[k] == LF
  {
    if |text| == 0 || text[0] == LF then 0 else 1 + LineEnd(text[1..])
  }

  /** A line read up to its line feed loses one trailing carriage return. */
  function DropCr(line: string): string {
    if |line| > 0 && line[|line| - 1] == CR then line[..|line| - 1] else line
  }

  /** The lines `BufRead::lines` yields for a file holding `text`. */
  function Lines(text: string): (r: seq<string>)
    ensures |text| > 0 ==> |r| > 0
    ensures |text| > 0 && LF !in text ==> r == [text]
    decreases |text|
  {
    if |text| == 0 then []
    else
      var k := LineEnd(text);
      if k == |text| then [text]
      else [DropCr(text[..k])] + Lines(text[k + 1..])
  }

  /** The text of a file written as `lines`, each followed by a line feed. */
  function Join(lines: seq<string>): (text: string)
    ensures Terminated(text)
  {
    if |lines| == 0 then [] else lines[0] + [LF] + Join(lines[1..])
  }

  /** Reading back what was written as plain lines gives the same lines. */
  lemma {:induction false} LinesOfJoin(lines: seq<string>)
    requires forall i :: 0 <= i < |lines| ==> PlainLine(lines[i])
    ensures Lines(Join(lines)) == lines
  {
    if |lines| > 0 {
      var text := Join(lines);
      var l := lines[0];
      assert PlainLine(l);
      FirstLineEnd(l, Join(lines[1..]));
      assert text[..|l|] == l;
      assert text[|l| + 1..] == Join(lines[1..]);
      LinesOfJoin(lines[1..]);
      assert lines == [l] + lines[1..];
    }
  }

  lemma FirstLineEnd(l: string, rest: string)
    requires LF !in l
    ensures LineEnd(l + [LF] + rest) == |l|
  {
    var t := l + [LF] + rest;
    assert t[|l|] == LF;
    assert forall i :: 0 <= i < |l| ==> t[i] == l[i];
  }

  lemma LineEndOfPrefix(a: string, b: string)
    requires LineEnd(a) < |a|
    ensures LineEnd(a + b) == LineEnd(a)
  {
    var t := a + b;
    assert t[LineEnd(a)] == LF;
    assert forall i :: 0 <= i < |a| ==> t[i] == a[i];
  }

  /** One step of `Lines` on a text whose first line is terminated. */
  lemma LinesStep(text: string, k: nat)
    requires k == LineEnd(text) < |text|
    ensures Lines(text) == [DropCr(text[..k])] + Lines(text[k + 1..])
  {
  }

  /** A line ended by CR LF is read without its CR; an LF alone ends a line too. */
  lemma LinesDropsCr(l: string, rest: string)
    requires LF !in l
    ensures Lines(l + [CR, LF] + rest) == [l] + Lines(rest)
  {
    var t := l + [CR, LF] + rest;
    assert t == (l + [CR]) + [LF] + rest;
    FirstLineEnd(l + [CR], rest);
    assert t[..|l| + 1] == l + [CR];
    assert t[|l| + 2..] == rest;
    LinesStep(t, |l| + 1);
  }

  /** Appending one plain line to a terminated file adds exactly that line to what is read back. */
  lemma LinesAppend(text: string, line: string)
    requires Terminated(text)
    requires PlainLine(line)
    ensures Lines(text + line + [LF]) == Lines(text) + [line]
  {
    assert line + [LF] == Join([line]);
    LinesOfJoin([line]);
    LinesConcat(text, line + [LF]);
    assert text + line + [LF] == text + (line + [LF]);
  }

  /** After a terminated text, the lines of what follows are read independently. */
  lemma {:induction false} LinesConcat(a: string, b: string)
    requires Terminated(a)
    ensures Lines(a + b) == Lines(a) + Lines(b)
    decreases |a|
  {
    if |a| == 0 {
      assert a + b == b;
    } else {
      var k := LineEnd(a);
      assert k < |a|;
      var rest := a[k + 1..];
      assert Terminated(rest) by {
        if |rest| > 0 { assert rest[|rest| - 1] == a[|a| - 1]; }
      }
      var h := DropCr(a[..k]);
      var x, y := Lines(rest), Lines(b);
      LinesConcat(rest, b);
      AppendAfterFirstLine(a, b, k);
      LinesStep(a, k);
      ConsAssoc(h, x, y);
    }
  }

  lemma ConsAssoc<T>(h: T, x: seq<T>, y: seq<T>)
    ensures [h] + (x + y) == ([h] + x) + y
  {
  }

  lemma AppendAfterFirstLine(text: string, more: string, k: nat)
    requires k == LineEnd(text) < |text|
    ensures Lines(text + more) == [DropCr(text[..k])] + Lines(text[k + 1..] + more)
  {
    var t := text + more;
    LineEndOfPrefix(text, more);
    assert t[..k] == text[..k];
    assert t[k + 1..] == text[k + 1..] + more;
    LinesStep(t, k);
  }
}
