/**
 * Line splitting as `bufio.Scanner` does it with its default split function
 * `bufio.ScanLines`: tokens end at '\n', one trailing '\r' is dropped from
 * each token, and a final token without '\n' is still produced when it is
 * not empty.
 */
module Lines {
  import opened Wrappers
  import opened Strings

  /** The token with one trailing carriage return removed. */
  function DropCR(s: string): (r: string)
    ensures r == s || (s == r + ['\r'])
    ensures |s| > 0 && s[|s| - 1] == '\r' ==> s == r + ['\r']
  {
    if |s| > 0 && s[|s| - 1] == '\r' then s[..|s| - 1] else s
  }

  /** The successive tokens `scanner.Text()` yields for `text`. */
  function ScanLines(text: string): (lines: seq<string>)
    ensures forall i :: 0 <= i < |lines| ==> '\n' !in lines[i]
    ensures text == [] <==> lines == []
    ensures |lines| <= |text|
    decreases |text|
  {
    match IndexOf(text, '\n')
    case None => if text == [] then [] else [DropCR(text)]
    case Some(i) => [DropCR(text[..i])] + ScanLines(text[i + 1..])
  }

  /** A line `ScanLines` can give back unchanged: no newline, no trailing carriage return. */
  predicate PlainLine(line: string) {
    '\n' !in line && (|line| == 0 || line[|line| - 1] != '\r')
  }

  /** The lines, each terminated by '\n'. */
  function JoinLines(lines: seq<string>): string {
    if lines == [] then [] else lines[0] + "\n" + JoinLines(lines[1..])
  }

  /** Scanning newline-terminated plain lines gives those lines back. */
  lemma {:induction false} ScanJoinLines(lines: seq<string>)
    requires forall i :: 0 <= i < |lines| ==> PlainLine(lines[i])
    ensures ScanLines(JoinLines(lines)) == lines
    decreases |lines|
  {
    if lines != [] {
      var text := JoinLines(lines);
      var head, tail := lines[0], JoinLines(lines[1..]);
      assert PlainLine(head);
      assert text == head + "\n" + tail;
      assert text[..|head|] == head && text[|head|] == '\n' && text[|head| + 1..] == tail;
      assert IndexOf(text, '\n') == Some(|head|);
      assert DropCR(head) == head;
      ScanJoinLines(lines[1..]);
      assert ScanLines(text) == [head] + ScanLines(tail);
      assert lines == [head] + lines[1..];
    }
  }

  /** Joining the scanned lines of newline-terminated text without carriage returns restores it. */
  lemma {:induction false} JoinScanLines(text: string)
    requires '\r' !in text
    requires text == [] || text[|text| - 1] == '\n'
    ensures JoinLines(ScanLines(text)) == text
    decreases |text|
  {
    if text != [] {
      var i := IndexOf(text, '\n').value;
      var head, rest := text[..i], text[i + 1..];
      assert text == head + "\n" + rest;
      assert '\r' !in head && '\r' !in rest;
      assert DropCR(head) == head;
      assert rest == [] || rest[|rest| - 1] == '\n';
      JoinScanLines(rest);
      assert ScanLines(text) == [head] + ScanLines(rest);
    }
  }

  /** The lines, each terminated by "\r\n" as WHOIS servers send them. */
  function JoinCRLF(lines: seq<string>): string {
    if lines == [] then [] else lines[0] + "\r\n" + JoinCRLF(lines[1..])
  }

  /** Scanning CRLF-terminated lines gives those lines back: the '\r' of each line end is dropped. */
  lemma {:induction false} ScanJoinCRLF(lines: seq<string>)
    requires forall i :: 0 <= i < |lines| ==> '\n' !in lines[i]
    ensures ScanLines(JoinCRLF(lines)) == lines
    decreases |lines|
  {
    if lines != [] {
      var text := JoinCRLF(lines);
      var head, tail := lines[0], JoinCRLF(lines[1..]);
      assert text == (head + "\r") + "\n" + tail;
      assert text[..|head| + 1] == head + "\r" && text[|head| + 1] == '\n';
      assert text[|head| + 2..] == tail;
      assert '\n' !in head + "\r";
      assert IndexOf(text, '\n') == Some(|head| + 1);
      assert DropCR(head + "\r") == head;
      ScanJoinCRLF(lines[1..]);
      assert ScanLines(text) == [head] + ScanLines(tail);
      assert lines == [head] + lines[1..];
    }
  }

  /** Each piece with one trailing carriage return removed. */
  function DropCRs(parts: seq<string>): (r: seq<string>)
    ensures |r| == |parts|
  {
    seq(|parts|, i requires 0 <= i < |parts| => DropCR(parts[i]))
  }

  /** The pieces without a last piece that is empty. */
  function DropFinalEmpty(parts: seq<string>): seq<string> {
    if |parts| > 0 && parts[|parts| - 1] == [] then parts[..|parts| - 1] else parts
  }

  /**
   * The general form: the scanned lines are the '\n'-separated pieces of the
   * text, less an empty piece after a final '\n', each without one trailing
   * '\r'. So an unterminated last line is kept, and "\r\n" ends a line.
   */
  lemma {:induction false} ScanLinesSplit(text: string)
    ensures ScanLines(text) == DropCRs(DropFinalEmpty(Split(text, '\n')))
    decreases |text|
  {
    match IndexOf(text, '\n')
    case None =>
      assert Split(text, '\n') == [text];
      if text != [] {
        assert DropCRs([text]) == [DropCR(text)];
      }
    case Some(i) =>
      var rest := text[i + 1..];
      var p := Split(rest, '\n');
      assert Split(text, '\n') == [text[..i]] + p;
      DropFinalEmptyCons(text[..i], p);
      ScanLinesSplit(rest);
      DropCRsCons(text[..i], DropFinalEmpty(p));
  }

  lemma DropFinalEmptyCons(head: string, parts: seq<string>)
    requires |parts| > 0
    ensures DropFinalEmpty([head] + parts) == [head] + DropFinalEmpty(parts)
  {
    if parts[|parts| - 1] == [] {
      assert ([head] + parts)[..|parts|] == [head] + parts[..|parts| - 1];
    }
  }

  lemma DropCRsCons(head: string, parts: seq<string>)
    ensures DropCRs([head] + parts) == [DropCR(head)] + DropCRs(parts)
  {
  }

  /** CRLF line ends and an unterminated last line: "a\r\nb" scans to "a" and "b". */
  lemma ScanLinesExample()
    ensures ScanLines("a\r\nb") == ["a", "b"]
  {
    var text := "a\r\nb";
    assert IndexOf(text, '\n') == Some(2);
    assert text[..2] == "a\r" && text[3..] == "b";
    assert IndexOf("b", '\n') == None;
    assert ScanLines("b") == ["b"];
    assert DropCR("a\r") == "a";
    assert ScanLines(text) == [DropCR(text[..2])] + ScanLines(text[3..]);
  }
}
