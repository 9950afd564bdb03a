/** The comment lines of a QDYN pulse file: how `Pulse.read` splits them
    into a preamble (whose last line is the column header) and a
    postamble, how `Pulse.write` renders them back, and how `oct_iter`
    finds the OCT iteration number in the preamble. */
module PulseComments {
  import opened Outcomes

  // ---------------------------------------------------------------------
  // Stripping whitespace (`str.strip()`)
  // ---------------------------------------------------------------------

  /** `str.isspace()` for one character. */
  predicate IsSpace(c: char)
  {
    || c == ' ' || '\t' <= c <= '\r' || '\U{1c}' <= c <= '\U{1f}'
    || c == '\U{85}' || c == '\U{a0}' || c == '\U{1680}'
    || '\U{2000}' <= c <= '\U{200a}' || c == '\U{2028}' || c == '\U{2029}'
    || c == '\U{202f}' || c == '\U{205f}' || c == '\U{3000}'
  }

  /** `s.lstrip()`. */
  function LStrip(s: string): string
  {
    if s != [] && IsSpace(s[0]) then LStrip(s[1..]) else s
  }

  /** `s.rstrip()`. */
  function RStrip(s: string): string
  {
    if s != [] && IsSpace(s[|s| - 1]) then RStrip(s[..|s| - 1]) else s
  }

  /** `lstrip` drops the leading run of spaces and nothing else. */
  lemma {:induction false} LStripDropsLeadingSpaces(s: string)
    ensures var r := LStrip(s);
      && |r| <= |s| && r == s[|s| - |r|..]
      && (r != [] ==> !IsSpace(r[0]))
      && (forall i :: 0 <= i < |s| - |r| ==> IsSpace(s[i]))
  {
    if s != [] && IsSpace(s[0]) {
      LStripDropsLeadingSpaces(s[1..]);
      var r := LStrip(s);
      assert forall i :: 1 <= i < |s| - |r| ==> s[i] == s[1..][i - 1];
    }
  }

  /** `rstrip` drops the trailing run of spaces and nothing else. */
  lemma {:induction false} RStripDropsTrailingSpaces(s: string)
    ensures var r := RStrip(s);
      && |r| <= |s| && r == s[..|r|]
      && (r != [] ==> !IsSpace(r[|r| - 1]))
      && (forall i :: |r| <= i < |s| ==> IsSpace(s[i]))
  {
    if s != [] && IsSpace(s[|s| - 1]) {
      RStripDropsTrailingSpaces(s[..|s| - 1]);
    }
  }

  /** `s.strip()`. */
  function Strip(s: string): (r: string)
    ensures r != [] ==> !IsSpace(r[0]) && !IsSpace(r[|r| - 1])
  {
    LStripDropsLeadingSpaces(s);
    RStripDropsTrailingSpaces(LStrip(s));
    RStrip(LStrip(s))
  }

  /** Stripping keeps a line's first character when it is not a space, and
      adds no character that was not there. */
  lemma StripKeeps(s: string)
    ensures forall c :: c in Strip(s) ==> c in s
    ensures s != [] && !IsSpace(s[0]) ==> Strip(s) != [] && Strip(s)[0] == s[0]
  {
    var l := LStrip(s);
    var r := RStrip(l);
    LStripDropsLeadingSpaces(s);
    RStripDropsTrailingSpaces(l);
    forall c | c in r
      ensures c in s
    {
      var i :| 0 <= i < |r| && r[i] == c;
      assert l[i] == c;
      assert s[|s| - |l| + i] == c;
    }
  }

  /** A trailing space, such as the newline that ends a line of a file,
      makes no difference to the stripped line. */
  lemma StripDropsTrailingSpace(s: string, c: char)
    requires IsSpace(c)
    ensures Strip(s + [c]) == Strip(s)
  {
    if LStrip(s) == [] {
      LStripAllSpace(s, c);
    } else {
      LStripAppend(s, c);
      assert RStrip(LStrip(s) + [c]) == RStrip(LStrip(s));
    }
  }

  lemma {:induction false} LStripAllSpace(s: string, c: char)
    requires IsSpace(c) && LStrip(s) == []
    ensures LStrip(s + [c]) == []
  {
    if s != [] {
      assert (s + [c])[1..] == s[1..] + [c];
      LStripAllSpace(s[1..], c);
    }
  }

  lemma {:induction false} LStripAppend(s: string, c: char)
    requires LStrip(s) != []
    ensures LStrip(s + [c]) == LStrip(s) + [c]
  {
    if IsSpace(s[0]) {
      assert (s + [c])[1..] == s[1..] + [c];
      LStripAppend(s[1..], c);
    }
  }

  /** Stripping a stripped line changes nothing. */
  lemma StripIdempotent(s: string)
    requires Strip(s) == s
    ensures LStrip(s) == s && RStrip(s) == s
  {
  }

  // ---------------------------------------------------------------------
  // Files as lines
  // ---------------------------------------------------------------------

  /** `line.startswith('#')`. */
  predicate IsComment(line: string)
  {
    |line| > 0 && line[0] == '#'
  }

  predicate NoNewline(line: string)
  {
    '\n' !in line
  }

  /** The text of a file made of `ls`, each line ended by a newline. */
  function Lines(ls: seq<string>): string
  {
    if ls == [] then [] else Lines(ls[..|ls| - 1]) + ls[|ls| - 1] + "\n"
  }

  /** The lines `ls`, each with its newline. */
  function Terminated(ls: seq<string>): (r: seq<string>)
    ensures |r| == |ls| && forall i :: 0 <= i < |ls| ==> r[i] == ls[i] + "\n"
  {
    if ls == [] then [] else [ls[0] + "\n"] + Terminated(ls[1..])
  }

  /** The length of the first line of `text`, its newline included. */
  function FirstLineLength(text: string): (n: nat)
    requires text != []
    ensures 0 < n <= |text|
    ensures n < |text| ==> text[n - 1] == '\n'
    ensures NoNewline(text[..n - 1])
  {
    if text[0] == '\n' || |text| == 1 then 1
    else
      var n := 1 + FirstLineLength(text[1..]);
      assert text[..n - 1] == [text[0]] + text[1..][..n - 2];
      n
  }

  /** Iterating over a file opened for reading: its lines, each with the
      newline that ends it; the last line may lack one. */
  function FileLines(text: string): seq<string>
    decreases |text|
  {
    if text == [] then []
    else
      var n := FirstLineLength(text);
      [text[..n]] + FileLines(text[n..])
  }

  lemma {:induction false} LinesCons(l: string, ls: seq<string>)
    ensures Lines([l] + ls) == l + "\n" + Lines(ls)
    decreases |ls|
  {
    if ls != [] {
      var p := ls[..|ls| - 1];
      assert ([l] + ls)[..|ls|] == [l] + p;
      LinesCons(l, p);
    } else {
      assert [l][..0] == [];
    }
  }

  /** Rendering two runs of lines one after the other. */
  lemma {:induction false} LinesAppend(a: seq<string>, b: seq<string>)
    ensures Lines(a + b) == Lines(a) + Lines(b)
    decreases |b|
  {
    if b == [] {
      assert a + b == a;
    } else {
      assert (a + b)[..|a + b| - 1] == a + b[..|b| - 1];
      LinesAppend(a, b[..|b| - 1]);
    }
  }

  lemma {:induction false} FirstLineOf(l: string, rest: string)
    requires NoNewline(l)
    ensures FirstLineLength(l + "\n" + rest) == |l| + 1
  {
    var text := l + "\n" + rest;
    if l != [] {
      assert l[0] in l;
      assert text[1..] == l[1..] + "\n" + rest;
      FirstLineOf(l[1..], rest);
    }
  }

  lemma FileLinesStep(l: string, rest: string)
    requires NoNewline(l)
    ensures FileLines(l + "\n" + rest) == [l + "\n"] + FileLines(rest)
  {
    var text := l + "\n" + rest;
    FirstLineOf(l, rest);
    assert text[..|l| + 1] == l + "\n";
    assert text[|l| + 1..] == rest;
  }

  /** A last line without a newline is read as one line. */
  lemma {:induction false} FileLinesLast(l: string)
    requires l != [] && NoNewline(l)
    ensures FileLines(l) == [l]
  {
    FirstLineOfLast(l);
    assert l[..|l|] == l && l[|l|..] == [];
    assert FileLines(l) == [l[..|l|]] + FileLines(l[|l|..]);
  }

  lemma {:induction false} FirstLineOfLast(l: string)
    requires l != [] && NoNewline(l)
    ensures FirstLineLength(l) == |l|
  {
    assert l[0] in l;
    assert l[0] != '\n';
    if |l| > 1 {
      assert forall c :: c in l[1..] ==> c in l;
      FirstLineOfLast(l[1..]);
      assert FirstLineLength(l) == 1 + FirstLineLength(l[1..]);
    }
  }

  /** Reading back a file written line by line gives the same lines, each
      with its newline. */
  lemma {:induction false} FileLinesOfLines(ls: seq<string>)
    requires forall i :: 0 <= i < |ls| ==> NoNewline(ls[i])
    ensures FileLines(Lines(ls)) == Terminated(ls)
    decreases |ls|
  {
    if ls != [] {
      LinesCons(ls[0], ls[1..]);
      assert [ls[0]] + ls[1..] == ls;
      FileLinesStep(ls[0], Lines(ls[1..]));
      FileLinesOfLines(ls[1..]);
    }
  }

  // ---------------------------------------------------------------------
  // Reading: preamble, header and postamble
  // ---------------------------------------------------------------------

  /** How many lines at the start of the file are comment lines. */
  function LeadingComments(lines: seq<string>): (n: nat)
    ensures n <= |lines|
    ensures forall i :: 0 <= i < n ==> IsComment(lines[i])
    ensures n < |lines| ==> !IsComment(lines[n])
  {
    if lines == [] || !IsComment(lines[0]) then 0
    else 1 + LeadingComments(lines[1..])
  }

  /** The comment lines among `lines`, in order, stripped. */
  function StrippedComments(lines: seq<string>): seq<string>
  {
    if lines == [] then []
    else
      var last := lines[|lines| - 1];
      StrippedComments(lines[..|lines| - 1]) + (if IsComment(last) then [Strip(last)] else [])
  }

  /** The preamble (the comment lines before the first other line) and the
      postamble (every later comment line), both stripped. */
  function CommentSplit(lines: seq<string>): (seq<string>, seq<string>)
  {
    var n := LeadingComments(lines);
    (StrippedComments(lines[..n]), StrippedComments(lines[n..]))
  }

  lemma {:induction false} StrippedCommentsAppend(a: seq<string>, b: seq<string>)
    ensures StrippedComments(a + b) == StrippedComments(a) + StrippedComments(b)
    decreases |b|
  {
    if b == [] {
      assert a + b == a;
    } else {
      assert (a + b)[..|a + b| - 1] == a + b[..|b| - 1];
      StrippedCommentsAppend(a, b[..|b| - 1]);
    }
  }

  lemma {:induction false} StrippedCommentsAreComments(lines: seq<string>)
    ensures forall i :: 0 <= i < |StrippedComments(lines)| ==> IsComment(StrippedComments(lines)[i])
  {
    if lines != [] {
      var last := lines[|lines| - 1];
      StrippedCommentsAreComments(lines[..|lines| - 1]);
      if IsComment(last) {
        StripKeeps(last);
      }
    }
  }

  /** Every comment line of the file ends up, stripped, in exactly one of
      the preamble and the postamble, in file order; the preamble holds one
      line per leading comment line; and every line of both still starts
      with '#'. */
  lemma CommentSplitPartition(lines: seq<string>)
    ensures var (pre, post) := CommentSplit(lines);
      && pre + post == StrippedComments(lines)
      && |pre| == LeadingComments(lines)
      && (forall i :: 0 <= i < |pre| ==> IsComment(pre[i]))
      && (forall i :: 0 <= i < |post| ==> IsComment(post[i]))
  {
    var n := LeadingComments(lines);
    assert lines == lines[..n] + lines[n..];
    StrippedCommentsAppend(lines[..n], lines[n..]);
    LeadingAllKept(lines[..n]);
    StrippedCommentsAreComments(lines[..n]);
    StrippedCommentsAreComments(lines[n..]);
  }

  lemma {:induction false} LeadingAllKept(lines: seq<string>)
    requires forall i :: 0 <= i < |lines| ==> IsComment(lines[i])
    ensures |StrippedComments(lines)| == |lines|
  {
    if lines != [] {
      LeadingAllKept(lines[..|lines| - 1]);
    }
  }

  /** Reading one more line of `lines[i..]`. */
  lemma StrippedCommentsSnoc(lines: seq<string>, i: nat, k: nat)
    requires i <= k < |lines|
    ensures StrippedComments(lines[i..k + 1]) ==
      StrippedComments(lines[i..k]) + (if IsComment(lines[k]) then [Strip(lines[k])] else [])
  {
    assert lines[i..k + 1][..k - i] == lines[i..k];
  }

  /** The loop of `Pulse.read` over the lines of the file. */
  method SplitComments(lines: seq<string>) returns (preamble: seq<string>, postamble: seq<string>)
    ensures (preamble, postamble) == CommentSplit(lines)
  {
    ghost var n := LeadingComments(lines);
    preamble, postamble := [], [];
    var inPreamble := true;
    for k := 0 to |lines|
      invariant inPreamble <==> k <= n
      invariant inPreamble ==> preamble == StrippedComments(lines[..k]) && postamble == []
      invariant !inPreamble ==>
        preamble == StrippedComments(lines[..n]) && postamble == StrippedComments(lines[n..k])
    {
      var line := lines[k];
      if inPreamble {
        StrippedCommentsSnoc(lines, 0, k);
      } else {
        StrippedCommentsSnoc(lines, n, k);
      }
      if IsComment(line) {
        if inPreamble {
          preamble := preamble + [Strip(line)];
        } else {
          postamble := postamble + [Strip(line)];
        }
      } else {
        if inPreamble {
          assert k == n;
          assert lines[n..k] == [];
          StrippedCommentsSnoc(lines, n, k);
          inPreamble := false;
        }
      }
    }
    assert lines[..|lines|] == lines;
    if inPreamble {
      assert n == |lines| && lines[n..] == [];
    }
  }

  datatype ReadError = IOError(message: string)

  /** The comment part of a pulse read from file: the preamble without the
      header line, the header line (unless headers are ignored), and the
      postamble. */
  datatype PulseComments = PulseComments(preamble: seq<string>, header: Option<string>, postamble: seq<string>)

  /** The comment handling of `Pulse.read` on the text of a file. */
  function ReadSpec(text: string, ignoreHeader: bool): Result<PulseComments, ReadError>
  {
    var (pre, post) := CommentSplit(FileLines(text));
    if ignoreHeader then Ok(PulseComments(pre, None, post))
    else if pre == [] then Err(IOError("Pulse file does not contain a preamble"))
    else Ok(PulseComments(pre[..|pre| - 1], Some(pre[|pre| - 1]), post))
  }

  /** The header pop needs a preamble: reading fails exactly when the file
      does not start with a comment line and headers are not ignored. */
  lemma ReadFailsWithoutPreamble(text: string, ignoreHeader: bool)
    ensures ReadSpec(text, ignoreHeader).Err? <==>
      !ignoreHeader && (FileLines(text) == [] || !IsComment(FileLines(text)[0]))
  {
    CommentSplitPartition(FileLines(text));
  }

  /** `Pulse.read`'s comment handling: split the lines, then pop the header. */
  method ReadComments(text: string, ignoreHeader: bool) returns (r: Result<PulseComments, ReadError>)
    ensures r == ReadSpec(text, ignoreHeader)
  {
    var preamble, postamble := SplitComments(FileLines(text));
    if ignoreHeader {
      return Ok(PulseComments(preamble, None, postamble));
    }
    if |preamble| == 0 {
      return Err(IOError("Pulse file does not contain a preamble"));
    }
    var header := preamble[|preamble| - 1];
    preamble := preamble[..|preamble| - 1];
    r := Ok(PulseComments(preamble, Some(header), postamble));
  }

  // ---------------------------------------------------------------------
  // Writing
  // ---------------------------------------------------------------------

  /** A preamble or postamble line as written: stripped, and made a comment
      by a leading "# " unless it already starts with '#'. */
  function Normalized(line: string): (r: string)
    ensures IsComment(r)
    ensures NoNewline(line) ==> NoNewline(r)
  {
    var s := Strip(line);
    StripKeeps(line);
    if IsComment(s) then s else "# " + s
  }

  function NormalizedAll(ls: seq<string>): (r: seq<string>)
    ensures |r| == |ls|
  {
    if ls == [] then [] else NormalizedAll(ls[..|ls| - 1]) + [Normalized(ls[|ls| - 1])]
  }

  lemma {:induction false} NormalizedAllAt(ls: seq<string>)
    ensures forall i :: 0 <= i < |ls| ==> NormalizedAll(ls)[i] == Normalized(ls[i])
  {
    if ls != [] {
      NormalizedAllAt(ls[..|ls| - 1]);
    }
  }

  /** The postamble as `Pulse.write` renders it: a line that does not
      start with '#' gets "# " in front but no newline after it. */
  function PostambleAsWritten(ls: seq<string>): string
  {
    if ls == [] then []
    else
      var s := Strip(ls[|ls| - 1]);
      PostambleAsWritten(ls[..|ls| - 1]) + (if IsComment(s) then s + "\n" else "# " + s)
  }

  /** The file `Pulse.write` writes, with the postamble rendered like the
      preamble. `header` is the formatted column header and `data` the
      formatted data lines. */
  function WrittenText(pre: seq<string>, header: string, data: seq<string>, post: seq<string>): string
  {
    Lines(NormalizedAll(pre) + [header] + data + NormalizedAll(post))
  }

  /** The file `Pulse.write` writes, as the code stands. */
  function WrittenTextAsWritten(pre: seq<string>, header: string, data: seq<string>, post: seq<string>): string
  {
    Lines(NormalizedAll(pre) + [header] + data) + PostambleAsWritten(post)
  }

  /** The preamble loop of `Pulse.write`. */
  method RenderComments(lines: seq<string>) returns (buffer: string)
    ensures buffer == Lines(NormalizedAll(lines))
  {
    buffer := "";
    for k := 0 to |lines|
      invariant buffer == Lines(NormalizedAll(lines[..k]))
    {
      assert lines[..k + 1][..k] == lines[..k];
      var line := Strip(lines[k]);
      if IsComment(line) {
        buffer := buffer + line + "\n";
      } else {
        buffer := buffer + "# " + line + "\n";
      }
    }
    assert lines[..|lines|] == lines;
  }

  /** The postamble loop of `Pulse.write`, as written. */
  method RenderPostambleAsWritten(lines: seq<string>) returns (buffer: string)
    ensures buffer == PostambleAsWritten(lines)
  {
    buffer := "";
    for k := 0 to |lines|
      invariant buffer == PostambleAsWritten(lines[..k])
    {
      assert lines[..k + 1][..k] == lines[..k];
      var line := Strip(lines[k]);
      if IsComment(line) {
        buffer := buffer + line + "\n";
      } else {
        buffer := buffer + "# " + line;
      }
    }
    assert lines[..|lines|] == lines;
  }

  /** The header and data lines, each ended by a newline. */
  method RenderBody(header: string, data: seq<string>) returns (buffer: string)
    ensures buffer == Lines([header] + data)
  {
    buffer := header + "\n";
    assert Lines([header]) == buffer by { assert [header][..0] == []; }
    for i := 0 to |data|
      invariant buffer == Lines([header] + data[..i])
    {
      assert ([header] + data[..i + 1])[..i + 1] == [header] + data[..i];
      buffer := buffer + data[i] + "\n";
    }
    assert data[..|data|] == data;
  }

  /** `Pulse.write`, as written. */
  method WriteAsWritten(pre: seq<string>, header: string, data: seq<string>, post: seq<string>)
    returns (buffer: string)
    ensures buffer == WrittenTextAsWritten(pre, header, data, post)
    ensures ReadBackParts(pre, header, data, post) ==>
      ReadSpec(buffer, false) == Ok(PulseComments(pre, Some(Strip(header)), post))
  {
    var preamble := RenderComments(pre);
    var body := RenderBody(header, data);
    var postamble := RenderPostambleAsWritten(post);
    buffer := preamble + body + postamble;
    LinesAppend(NormalizedAll(pre), [header] + data);
    assert NormalizedAll(pre) + ([header] + data) == NormalizedAll(pre) + [header] + data;
    if ReadBackParts(pre, header, data, post) {
      ReadWriteAsWrittenRestores(pre, header, data, post);
    }
  }

  /** `Pulse.write`, with every postamble line ended by a newline. */
  method Write(pre: seq<string>, header: string, data: seq<string>, post: seq<string>)
    returns (buffer: string)
    ensures buffer == WrittenText(pre, header, data, post)
  {
    var preamble := RenderComments(pre);
    var body := RenderBody(header, data);
    var postamble := RenderComments(post);
    buffer := preamble + body + postamble;
    LinesAppend(NormalizedAll(pre), [header] + data);
    LinesAppend(NormalizedAll(pre) + ([header] + data), NormalizedAll(post));
    assert NormalizedAll(pre) + ([header] + data) == NormalizedAll(pre) + [header] + data;
  }

  // ---------------------------------------------------------------------
  // Round trip
  // ---------------------------------------------------------------------

  /** Reading a comment line back after writing it with its newline gives
      the line stripped. */
  lemma {:induction false} StrippedTerminated(ls: seq<string>)
    requires forall i :: 0 <= i < |ls| ==> IsComment(ls[i])
    ensures StrippedComments(Terminated(ls)) == StripAll(ls)
  {
    if ls != [] {
      var p := ls[..|ls| - 1];
      var last := ls[|ls| - 1];
      TerminatedSnoc(ls);
      StrippedTerminated(p);
      StrippedCommentLine(Terminated(p), last);
    }
  }

  lemma {:induction false} TerminatedSnoc(ls: seq<string>)
    requires ls != []
    ensures Terminated(ls) == Terminated(ls[..|ls| - 1]) + [ls[|ls| - 1] + "\n"]
  {
    var t := Terminated(ls);
    assert t == t[..|ls| - 1] + [t[|ls| - 1]];
    assert t[..|ls| - 1] == Terminated(ls[..|ls| - 1]);
  }

  /** A comment line with its newline is read back stripped. */
  lemma StrippedCommentLine(xs: seq<string>, line: string)
    requires IsComment(line)
    ensures StrippedComments(xs + [line + "\n"]) == StrippedComments(xs) + [Strip(line)]
  {
    StripDropsTrailingSpace(line, '\n');
    assert (xs + [line + "\n"])[..|xs|] == xs;
  }

  function StripAll(ls: seq<string>): (r: seq<string>)
    ensures |r| == |ls| && forall i :: 0 <= i < |ls| ==> r[i] == Strip(ls[i])
  {
    if ls == [] then [] else StripAll(ls[..|ls| - 1]) + [Strip(ls[|ls| - 1])]
  }

  /** A line that is already a stripped comment, as `Pulse.read` produces
      them, is read back unchanged. */
  lemma ReadBackStripped(line: string)
    requires Strip(line) == line && IsComment(line)
    ensures Strip(Normalized(line)) == line
  {
    StripIdempotent(line);
  }

  /** Reading the file that `Write` renders restores the preamble and the
      postamble (normalized), and the header line stripped, provided the
      file has a data line, no data line starts with '#', the header does,
      and no line holds a newline. */
  lemma {:induction false} ReadAfterWrite(pre: seq<string>, header: string, data: seq<string>, post: seq<string>)
    requires forall i :: 0 <= i < |pre| ==> NoNewline(pre[i])
    requires forall i :: 0 <= i < |post| ==> NoNewline(post[i])
    requires IsComment(header) && NoNewline(header)
    requires |data| > 0 && forall i :: 0 <= i < |data| ==> NoNewline(data[i]) && !IsComment(data[i])
    ensures ReadSpec(WrittenText(pre, header, data, post), false)
      == Ok(PulseComments(StripAll(NormalizedAll(pre)), Some(Strip(header)), StripAll(NormalizedAll(post))))
  {
    var np, nq := NormalizedAll(pre), NormalizedAll(post);
    var head := np + [header];
    WrittenLines(pre, header, data, post);
    HeadIsComments(pre, header);
    NormalizedAllAt(post);
    SplitWritten(head, data, nq);
    PopHeader(WrittenText(pre, header, data, post), np, header, StripAll(nq));
  }

  /** Reading with the header: the last preamble line is the header. */
  lemma PopHeader(text: string, np: seq<string>, header: string, post: seq<string>)
    requires CommentSplit(FileLines(text)) == (StripAll(np + [header]), post)
    ensures ReadSpec(text, false) == Ok(PulseComments(StripAll(np), Some(Strip(header)), post))
  {
    assert StripAll(np + [header])[..|np|] == StripAll(np);
  }

  /** The lines of the file `Write` renders. */
  lemma {:induction false} WrittenLines(pre: seq<string>, header: string, data: seq<string>, post: seq<string>)
    requires forall i :: 0 <= i < |pre| ==> NoNewline(pre[i])
    requires forall i :: 0 <= i < |post| ==> NoNewline(post[i])
    requires NoNewline(header)
    requires forall i :: 0 <= i < |data| ==> NoNewline(data[i])
    ensures FileLines(WrittenText(pre, header, data, post))
      == Terminated(NormalizedAll(pre) + [header] + data + NormalizedAll(post))
  {
    var np, nq := NormalizedAll(pre), NormalizedAll(post);
    var head := np + [header];
    var body := head + data;
    var ls := body + nq;
    NormalizedNoNewline(pre);
    NormalizedNoNewline(post);
    ConcatNoNewline(np, [header]);
    ConcatNoNewline(head, data);
    ConcatNoNewline(body, nq);
    FileLinesOfLines(ls);
  }

  lemma ConcatNoNewline(a: seq<string>, b: seq<string>)
    requires forall i :: 0 <= i < |a| ==> NoNewline(a[i])
    requires forall i :: 0 <= i < |b| ==> NoNewline(b[i])
    ensures forall i :: 0 <= i < |a + b| ==> NoNewline((a + b)[i])
  {
  }

  lemma NormalizedNoNewline(ls: seq<string>)
    requires forall i :: 0 <= i < |ls| ==> NoNewline(ls[i])
    ensures forall i :: 0 <= i < |ls| ==> NoNewline(NormalizedAll(ls)[i])
  {
    NormalizedAllAt(ls);
  }

  /** Comment lines, then at least one data line, then more comment lines:
      the first run is the preamble, the last the postamble. */
  lemma {:induction false} SplitWritten(head: seq<string>, data: seq<string>, tail: seq<string>)
    requires forall i :: 0 <= i < |head| ==> IsComment(head[i])
    requires |data| > 0 && forall i :: 0 <= i < |data| ==> !IsComment(data[i])
    requires forall i :: 0 <= i < |tail| ==> IsComment(tail[i])
    ensures CommentSplit(Terminated(head + data + tail)) == (StripAll(head), StripAll(tail))
  {
    var rest := Terminated(data + tail);
    assert head + data + tail == head + (data + tail);
    TerminatedAppend(head, data + tail);
    assert rest[0] == data[0] + "\n";
    assert !IsComment(data[0] + "\n") by {
      assert !IsComment(data[0]);
    }
    TerminatedComments(head);
    CommentsThenData(Terminated(head), rest);
    assert StrippedComments(Terminated(head)) == StripAll(head) by {
      StrippedTerminated(head);
    }
    assert StrippedComments(rest) == StripAll(tail) by {
      TerminatedAppend(data, tail);
      StrippedCommentsAppend(Terminated(data), Terminated(tail));
      TerminatedNoComments(data);
      NoComments(Terminated(data));
      StrippedTerminated(tail);
    }
  }

  lemma TerminatedComments(ls: seq<string>)
    requires forall i :: 0 <= i < |ls| ==> IsComment(ls[i])
    ensures forall i :: 0 <= i < |ls| ==> IsComment(Terminated(ls)[i])
  {
    forall i | 0 <= i < |ls|
      ensures IsComment(Terminated(ls)[i])
    {
      assert Terminated(ls)[i][0] == ls[i][0];
    }
  }

  lemma TerminatedNoComments(ls: seq<string>)
    requires forall i :: 0 <= i < |ls| ==> !IsComment(ls[i])
    ensures forall i :: 0 <= i < |Terminated(ls)| ==> !IsComment(Terminated(ls)[i])
  {
    forall i | 0 <= i < |ls|
      ensures !IsComment(Terminated(ls)[i])
    {
      if ls[i] != [] {
        assert Terminated(ls)[i][0] == ls[i][0];
      }
    }
  }

  lemma TerminatedAppend(a: seq<string>, b: seq<string>)
    ensures Terminated(a + b) == Terminated(a) + Terminated(b)
  {
  }

  /** A run of comment lines followed by a line that is not one: the
      preamble is the run. */
  lemma CommentsThenData(head: seq<string>, rest: seq<string>)
    requires forall i :: 0 <= i < |head| ==> IsComment(head[i])
    requires rest != [] && !IsComment(rest[0])
    ensures LeadingComments(head + rest) == |head|
    ensures CommentSplit(head + rest) == (StrippedComments(head), StrippedComments(rest))
  {
    var lines := head + rest;
    LeadingCommentsIs(lines, |head|);
    assert lines[..|head|] == head && lines[|head|..] == rest;
  }

  /** The leading comment lines are exactly the first `k` lines when those
      are comments and the next is not. */
  lemma {:induction false} LeadingCommentsIs(lines: seq<string>, k: nat)
    requires k <= |lines|
    requires forall i :: 0 <= i < k ==> IsComment(lines[i])
    requires k < |lines| ==> !IsComment(lines[k])
    ensures LeadingComments(lines) == k
  {
    if k > 0 {
      assert IsComment(lines[0]);
      assert forall i :: 0 <= i < k - 1 ==> lines[1..][i] == lines[i + 1];
      LeadingCommentsIs(lines[1..], k - 1);
    }
  }

  lemma {:induction false} NoComments(lines: seq<string>)
    requires forall i :: 0 <= i < |lines| ==> !IsComment(lines[i])
    ensures StrippedComments(lines) == []
  {
    if lines != [] {
      NoComments(lines[..|lines| - 1]);
    }
  }

  lemma ReadBackAllStripped(ls: seq<string>)
    requires forall i :: 0 <= i < |ls| ==> IsComment(ls[i]) && Strip(ls[i]) == ls[i]
    ensures StripAll(NormalizedAll(ls)) == ls
  {
    NormalizedAllAt(ls);
    forall i | 0 <= i < |ls|
      ensures StripAll(NormalizedAll(ls))[i] == ls[i]
    {
      ReadBackStripped(ls[i]);
    }
  }

  /** The parts of a pulse as `Pulse.read` leaves them: preamble and
      postamble lines are stripped comments, the header is a comment line,
      and there is at least one data line that is not a comment. */
  predicate ReadBackParts(pre: seq<string>, header: string, data: seq<string>, post: seq<string>)
  {
    && (forall i :: 0 <= i < |pre| ==> NoNewline(pre[i]) && IsComment(pre[i]) && Strip(pre[i]) == pre[i])
    && (forall i :: 0 <= i < |post| ==> NoNewline(post[i]) && IsComment(post[i]) && Strip(post[i]) == post[i])
    && IsComment(header) && NoNewline(header)
    && |data| > 0 && (forall i :: 0 <= i < |data| ==> NoNewline(data[i]) && !IsComment(data[i]))
  }

  /** Writing a pulse that was read from a file and reading it again gives
      back the same preamble and postamble. */
  lemma ReadWriteRestores(pre: seq<string>, header: string, data: seq<string>, post: seq<string>)
    requires ReadBackParts(pre, header, data, post)
    ensures ReadSpec(WrittenText(pre, header, data, post), false)
      == Ok(PulseComments(pre, Some(Strip(header)), post))
  {
    ReadAfterWrite(pre, header, data, post);
    ReadBackAllStripped(pre);
    ReadBackAllStripped(post);
  }

  /** On lines whose strip starts with '#', the postamble as written is
      the postamble rendered like the preamble. */
  lemma {:induction false} PostambleAsWrittenOfComments(post: seq<string>)
    requires forall i :: 0 <= i < |post| ==> IsComment(Strip(post[i]))
    ensures PostambleAsWritten(post) == Lines(NormalizedAll(post))
  {
    if post != [] {
      PostambleAsWrittenOfComments(post[..|post| - 1]);
    }
  }

  /** Writing, as the code stands, a pulse that was read from a file and
      reading it again gives back the same preamble and postamble: the
      lines `read` produces are stripped comments, which the postamble
      branch writes with their newline. */
  lemma ReadWriteAsWrittenRestores(pre: seq<string>, header: string, data: seq<string>, post: seq<string>)
    requires ReadBackParts(pre, header, data, post)
    ensures ReadSpec(WrittenTextAsWritten(pre, header, data, post), false)
      == Ok(PulseComments(pre, Some(Strip(header)), post))
  {
    PostambleAsWrittenOfComments(post);
    LinesAppend(NormalizedAll(pre) + [header] + data, NormalizedAll(post));
    ReadWriteRestores(pre, header, data, post);
  }

  /** A line that starts and ends with a non-space is its own strip. */
  lemma StripUnchanged(s: string)
    requires s != [] && !IsSpace(s[0]) && !IsSpace(s[|s| - 1])
    ensures Strip(s) == s
  {
  }

  /** A file whose last line has no newline. */
  lemma {:induction false} FileLinesThenLast(ls: seq<string>, last: string)
    requires forall i :: 0 <= i < |ls| ==> NoNewline(ls[i])
    requires last != [] && NoNewline(last)
    ensures FileLines(Lines(ls) + last) == Terminated(ls) + [last]
    decreases |ls|
  {
    if ls == [] {
      assert Lines(ls) + last == last;
      FileLinesLast(last);
    } else {
      FileLinesThenLast(ls[1..], last);
      FileLinesConsLast(ls, last);
    }
  }

  lemma {:induction false} FileLinesConsLast(ls: seq<string>, last: string)
    requires ls != [] && NoNewline(ls[0])
    requires FileLines(Lines(ls[1..]) + last) == Terminated(ls[1..]) + [last]
    ensures FileLines(Lines(ls) + last) == Terminated(ls) + [last]
  {
    var l, tail := ls[0], ls[1..];
    var rest := Lines(tail) + last;
    LinesCons(l, tail);
    assert [l] + tail == ls;
    AppendAssoc(l + "\n", Lines(tail), last);
    FileLinesStep(l, rest);
    AppendAssoc([l + "\n"], Terminated(tail), [last]);
  }

  lemma AppendAssoc<T>(a: seq<T>, b: seq<T>, c: seq<T>)
    ensures (a + b) + c == a + (b + c)
  {
  }


  /** As written, two postamble lines that do not start with '#' run
      together into one line of the file, which reads back as a single
      postamble line. */
  lemma {:induction false} PostambleRunsTogether(pre: seq<string>, header: string, data: seq<string>, a: string, b: string)
    requires forall i :: 0 <= i < |pre| ==> NoNewline(pre[i])
    requires IsComment(header) && NoNewline(header)
    requires |data| > 0 && forall i :: 0 <= i < |data| ==> NoNewline(data[i]) && !IsComment(data[i])
    requires a != [] && Strip(a) == a && !IsComment(a) && NoNewline(a)
    requires b != [] && Strip(b) == b && !IsComment(b) && NoNewline(b)
    ensures ReadSpec(WrittenTextAsWritten(pre, header, data, [a, b]), false)
      == Ok(PulseComments(StripAll(NormalizedAll(pre)), Some(Strip(header)), ["# " + a + "# " + b]))
  {
    var merged := "# " + a + "# " + b;
    PostambleAsWrittenPair(a, b);
    StripUnchanged(merged);
    ReadEndingInLast(pre, header, data, merged);
  }

  /** Two postamble lines that do not start with '#', as written. */
  lemma PostambleAsWrittenPair(a: string, b: string)
    requires Strip(a) == a && !IsComment(a)
    requires Strip(b) == b && !IsComment(b)
    ensures PostambleAsWritten([a, b]) == "# " + a + "# " + b
  {
    assert [a][..0] == [];
    assert PostambleAsWritten([a]) == "# " + a;
    assert [a, b][..1] == [a];
    assert PostambleAsWritten([a, b]) == PostambleAsWritten([a]) + ("# " + b);
  }

  /** A written file whose last line is a comment without a newline reads
      back with that line as the whole postamble. */
  lemma {:induction false} ReadEndingInLast(pre: seq<string>, header: string, data: seq<string>, last: string)
    requires forall i :: 0 <= i < |pre| ==> NoNewline(pre[i])
    requires IsComment(header) && NoNewline(header)
    requires |data| > 0 && forall i :: 0 <= i < |data| ==> NoNewline(data[i]) && !IsComment(data[i])
    requires IsComment(last) && NoNewline(last) && Strip(last) == last
    ensures ReadSpec(Lines(NormalizedAll(pre) + [header] + data) + last, false)
      == Ok(PulseComments(StripAll(NormalizedAll(pre)), Some(Strip(header)), [last]))
  {
    var np := NormalizedAll(pre);
    var head := np + [header];
    MergedLines(pre, header, data, last);
    HeadIsComments(pre, header);
    SplitThenLast(head, data, last);
    StripUnchanged(last);
    PopHeader(Lines(head + data) + last, np, header, [last]);
  }

  lemma {:induction false} MergedLines(pre: seq<string>, header: string, data: seq<string>, last: string)
    requires forall i :: 0 <= i < |pre| ==> NoNewline(pre[i])
    requires NoNewline(header)
    requires forall i :: 0 <= i < |data| ==> NoNewline(data[i])
    requires last != [] && NoNewline(last)
    ensures var head := NormalizedAll(pre) + [header];
      FileLines(Lines(head + data) + last) == Terminated(head + data) + [last]
  {
    var np := NormalizedAll(pre);
    var head := np + [header];
    NormalizedNoNewline(pre);
    ConcatNoNewline(np, [header]);
    ConcatNoNewline(head, data);
    FileLinesThenLast(head + data, last);
  }

  /** The corrected writer gives two such postamble lines back as two. */
  lemma {:induction false} PostambleKeptApart(pre: seq<string>, header: string, data: seq<string>, a: string, b: string)
    requires forall i :: 0 <= i < |pre| ==> NoNewline(pre[i])
    requires IsComment(header) && NoNewline(header)
    requires |data| > 0 && forall i :: 0 <= i < |data| ==> NoNewline(data[i]) && !IsComment(data[i])
    requires a != [] && Strip(a) == a && !IsComment(a) && NoNewline(a)
    requires b != [] && Strip(b) == b && !IsComment(b) && NoNewline(b)
    ensures ReadSpec(WrittenText(pre, header, data, [a, b]), false)
      == Ok(PulseComments(StripAll(NormalizedAll(pre)), Some(Strip(header)), ["# " + a, "# " + b]))
  {
    ReadAfterWrite(pre, header, data, [a, b]);
    NormalizedAllAt([a, b]);
    StripUnchanged("# " + a);
    StripUnchanged("# " + b);
    assert StripAll(NormalizedAll([a, b])) == ["# " + a, "# " + b];
  }

  lemma HeadIsComments(pre: seq<string>, header: string)
    requires IsComment(header)
    ensures forall i :: 0 <= i < |NormalizedAll(pre) + [header]| ==> IsComment((NormalizedAll(pre) + [header])[i])
  {
    NormalizedAllAt(pre);
  }

  /** Comment lines, at least one data line, and a last comment line
      without a newline. */
  lemma {:induction false} SplitThenLast(head: seq<string>, data: seq<string>, last: string)
    requires forall i :: 0 <= i < |head| ==> IsComment(head[i])
    requires |data| > 0 && forall i :: 0 <= i < |data| ==> !IsComment(data[i])
    requires IsComment(last)
    ensures CommentSplit(Terminated(head + data) + [last]) == (StripAll(head), [Strip(last)])
  {
    var rest := Terminated(data) + [last];
    TerminatedAppend(head, data);
    AppendAssoc(Terminated(head), Terminated(data), [last]);
    assert rest[0] == data[0] + "\n";
    assert !IsComment(data[0] + "\n") by {
      assert !IsComment(data[0]);
    }
    TerminatedComments(head);
    CommentsThenData(Terminated(head), rest);
    assert StrippedComments(Terminated(head)) == StripAll(head) by {
      StrippedTerminated(head);
    }
    DataThenLast(data, last);
  }

  /** Data lines followed by one comment line keep only that comment. */
  lemma DataThenLast(data: seq<string>, last: string)
    requires forall i :: 0 <= i < |data| ==> !IsComment(data[i])
    requires IsComment(last)
    ensures StrippedComments(Terminated(data) + [last]) == [Strip(last)]
  {
    StrippedCommentsAppend(Terminated(data), [last]);
    TerminatedNoComments(data);
    NoComments(Terminated(data));
    assert [last][..0] == [];
  }

  // ---------------------------------------------------------------------
  // OCT iteration number
  // ---------------------------------------------------------------------

  predicate IsDigit(c: char)
  {
    '0' <= c <= '9'
  }

  /** ASCII lower case, for matching a literal with `re.I`. */
  function Lower(c: char): char
  {
    if 'A' <= c <= 'Z' then (c as int + 32) as char else c
  }

  const OctIterLiteral: string := "oct iter"

  /** The literal `OCT iter` (any case) starts at `p`. */
  predicate LiteralAt(s: string, p: nat)
  {
    p + |OctIterLiteral| <= |s|
    && forall i :: 0 <= i < |OctIterLiteral| ==> Lower(s[p + i]) == OctIterLiteral[i]
  }

  /** The end of the run of `[\s:]` characters starting at `p`. */
  function SkipSeparators(s: string, p: nat): (q: nat)
    requires p <= |s|
    ensures p <= q <= |s|
    ensures forall i :: p <= i < q ==> IsSpace(s[i]) || s[i] == ':'
    ensures q < |s| ==> !IsSpace(s[q]) && s[q] != ':'
    decreases |s| - p
  {
    if p < |s| && (IsSpace(s[p]) || s[p] == ':') then SkipSeparators(s, p + 1) else p
  }

  /** The end of the run of digits starting at `p`. */
  function DigitsEnd(s: string, p: nat): (q: nat)
    requires p <= |s|
    ensures p <= q <= |s|
    ensures forall i :: p <= i < q ==> IsDigit(s[i])
    ensures q < |s| ==> !IsDigit(s[q])
    decreases |s| - p
  {
    if p < |s| && IsDigit(s[p]) then DigitsEnd(s, p + 1) else p
  }

  /** `int()` of a string of decimal digits. */
  function DecimalValue(ds: string): nat
    requires forall i :: 0 <= i < |ds| ==> IsDigit(ds[i])
  {
    if ds == [] then 0
    else
      assert IsDigit(ds[|ds| - 1]);
      DecimalValue(ds[..|ds| - 1]) * 10 + (ds[|ds| - 1] as int - '0' as int)
  }

  /** The match of `OCT iter[\s:]*(\d+)` starting at `p`, as the value of
      its group. Digits cannot be separators, so the greedy separator run
      never has to give back a character. */
  function MatchAt(s: string, p: nat): Option<nat>
  {
    if !LiteralAt(s, p) then None
    else
      var q := SkipSeparators(s, p + |OctIterLiteral|);
      var e := DigitsEnd(s, q);
      if e == q then None else Some(DecimalValue(s[q..e]))
  }

  /** The leftmost position from `p` on where the pattern matches, or
      `|s| + 1` when it matches nowhere. */
  function FirstMatchFrom(s: string, p: nat): (q: nat)
    requires p <= |s| + 1
    ensures p <= q <= |s| + 1
    ensures forall j :: p <= j < q ==> MatchAt(s, j).None?
    ensures q <= |s| ==> MatchAt(s, q).Some?
    decreases |s| + 1 - p
  {
    if p > |s| then p
    else if MatchAt(s, p).Some? then p
    else FirstMatchFrom(s, p + 1)
  }

  /** `re.search`: the leftmost match, if any. */
  function Search(s: string): (r: Option<nat>)
    ensures (forall j :: 0 <= j <= |s| ==> MatchAt(s, j).None?) ==> r.None?
    ensures forall q :: (0 <= q <= |s| && MatchAt(s, q).Some?
      && (forall j :: 0 <= j < q ==> MatchAt(s, j).None?)) ==> r == MatchAt(s, q)
  {
    var q := FirstMatchFrom(s, 0);
    if q <= |s| then MatchAt(s, q) else None
  }

  /** `Pulse.oct_iter`: the number after the first `OCT iter` in the
      preamble, or 0. */
  function OctIter(preamble: seq<string>): (n: nat)
    ensures (forall i :: 0 <= i < |preamble| ==> Search(preamble[i]).None?) ==> n == 0
    ensures forall i :: (0 <= i < |preamble| && Search(preamble[i]).Some?
      && (forall j :: 0 <= j < i ==> Search(preamble[j]).None?)) ==> n == Search(preamble[i]).value
  {
    if preamble == [] then 0
    else match Search(preamble[0])
      case Some(v) => v
      case None =>
        var rest := preamble[1..];
        var n := OctIter(rest);
        assert forall i :: (0 <= i < |preamble| && Search(preamble[i]).Some?
          && (forall j :: 0 <= j < i ==> Search(preamble[j]).None?)) ==> n == Search(preamble[i]).value
        by {
          forall i | 0 <= i < |preamble| && Search(preamble[i]).Some?
            && (forall j :: 0 <= j < i ==> Search(preamble[j]).None?)
            ensures n == Search(preamble[i]).value
          {
            assert i > 0 && rest[i - 1] == preamble[i];
            forall j | 0 <= j < i - 1
              ensures Search(rest[j]).None?
            {
              assert rest[j] == preamble[j + 1];
            }
          }
        }
        assert forall i :: 1 <= i < |preamble| ==> preamble[i] == rest[i - 1];
        n
  }

  /** The decimal digits of `n`, as `str(n)` writes them. */
  function DecimalString(n: nat): (ds: string)
    ensures |ds| > 0 && forall i :: 0 <= i < |ds| ==> IsDigit(ds[i])
  {
    if n < 10 then [('0' as int + n) as char]
    else DecimalString(n / 10) + [('0' as int + n % 10) as char]
  }

  lemma {:induction false} DecimalRoundTrip(n: nat)
    ensures DecimalValue(DecimalString(n)) == n
  {
    if n >= 10 {
      var ds := DecimalString(n);
      assert ds[..|ds| - 1] == DecimalString(n / 10);
      DecimalRoundTrip(n / 10);
    }
  }

  /** A preamble line `# OCT iter: <n>` (in any case, with any run of
      spaces and colons after the literal), after lines that mention no
      iteration, gives `oct_iter() == n`. */
  lemma {:induction false} OctIterFindsWrittenNumber(before: seq<string>, sep: string, n: nat, after: seq<string>)
    requires forall i :: 0 <= i < |before| ==> Search(before[i]).None?
    requires forall i :: 0 <= i < |sep| ==> IsSpace(sep[i]) || sep[i] == ':'
    ensures OctIter(before + ["# OCT iter" + sep + DecimalString(n)] + after) == n
  {
    var line := "# OCT iter" + sep + DecimalString(n);
    var pre := before + [line] + after;
    assert pre[|before|] == line;
    assert forall i :: 0 <= i < |before| ==> pre[i] == before[i];
    SearchFindsWrittenNumber(sep, n);
  }

  /** `re.search` finds the number in a line written as `# OCT iter<sep><n>`. */
  lemma {:induction false} SearchFindsWrittenNumber(sep: string, n: nat)
    requires forall i :: 0 <= i < |sep| ==> IsSpace(sep[i]) || sep[i] == ':'
    ensures Search("# OCT iter" + sep + DecimalString(n)) == Some(n)
  {
    var line := "# OCT iter" + sep + DecimalString(n);
    NoMatchBeforeLiteral(sep, DecimalString(n));
    MatchWrittenNumber(sep, n);
    assert FirstMatchFrom(line, 2) == 2;
    assert FirstMatchFrom(line, 1) == 2;
    assert FirstMatchFrom(line, 0) == 2;
  }

  /** The pattern cannot match at the "# " in front of the literal. */
  lemma NoMatchBeforeLiteral(sep: string, ds: string)
    ensures MatchAt("# OCT iter" + sep + ds, 0).None?
    ensures MatchAt("# OCT iter" + sep + ds, 1).None?
  {
    var line := "# OCT iter" + sep + ds;
    assert line[0] == '#' && line[1] == ' ';
    assert Lower(line[0]) != OctIterLiteral[0];
    assert Lower(line[1]) != OctIterLiteral[0];
  }

  lemma {:induction false} MatchWrittenNumber(sep: string, n: nat)
    requires forall i :: 0 <= i < |sep| ==> IsSpace(sep[i]) || sep[i] == ':'
    ensures MatchAt("# OCT iter" + sep + DecimalString(n), 2) == Some(n)
  {
    var ds := DecimalString(n);
    var x := "# OCT iter" + sep;
    assert "# OCT iter" + sep + ds == x + ds;
    LiteralInWrittenLine(sep, ds);
    SeparatorsInWrittenLine("# OCT iter", sep, ds);
    DigitsSuffix(x, ds);
    DecimalRoundTrip(n);
  }

  lemma LiteralInWrittenLine(sep: string, ds: string)
    ensures LiteralAt("# OCT iter" + sep + ds, 2)
  {
    var line := "# OCT iter" + sep + ds;
    forall i | 0 <= i < |OctIterLiteral|
      ensures Lower(line[2 + i]) == OctIterLiteral[i]
    {
      assert line[2 + i] == "OCT iter"[i];
    }
  }

  lemma SeparatorsInWrittenLine(x: string, sep: string, ds: string)
    requires forall i :: 0 <= i < |sep| ==> IsSpace(sep[i]) || sep[i] == ':'
    requires ds != [] && IsDigit(ds[0])
    ensures SkipSeparators(x + sep + ds, |x|) == |x| + |sep|
  {
    var line := x + sep + ds;
    assert forall i :: |x| <= i < |x| + |sep| ==> line[i] == sep[i - |x|];
    assert line[|x| + |sep|] == ds[0];
    SkipAll(line, |x|, |x| + |sep|);
  }

  /** A run of digits at the end of a line is the whole match group. */
  lemma DigitsSuffix(x: string, ds: string)
    requires forall i :: 0 <= i < |ds| ==> IsDigit(ds[i])
    ensures DigitsEnd(x + ds, |x|) == |x + ds|
    ensures (x + ds)[|x|..|x + ds|] == ds
  {
    assert forall i :: |x| <= i < |x + ds| ==> (x + ds)[i] == ds[i - |x|];
    DigitsAll(x + ds, |x|);
  }

  lemma {:induction false} SkipAll(s: string, p: nat, e: nat)
    requires p <= e < |s|
    requires forall i :: p <= i < e ==> IsSpace(s[i]) || s[i] == ':'
    requires !IsSpace(s[e]) && s[e] != ':'
    ensures SkipSeparators(s, p) == e
    decreases e - p
  {
    if p < e {
      SkipAll(s, p + 1, e);
    }
  }

  lemma {:induction false} DigitsAll(s: string, p: nat)
    requires p <= |s|
    requires forall i :: p <= i < |s| ==> IsDigit(s[i])
    ensures DigitsEnd(s, p) == |s|
    decreases |s| - p
  {
    if p < |s| {
      DigitsAll(s, p + 1);
    }
  }
}
